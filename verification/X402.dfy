/**
 The x402 payment handshake without its cryptography: how the client builds an authorization from the server's
 requirements, how the server checks it, and the server's store of used nonces.
 */
module X402 {
  import opened Prelude
  import opened Decimal
  import JsonText

  // ---- account hashes as text ----

  const ACCOUNT_PREFIX := "account-hash-"

  function StripPrefix(s: string, prefix: string): string {
    if prefix <= s then s[|prefix|..] else s
  }

  /** slice(-64) */
  function Last64(s: string): string {
    if |s| <= 64 then s else s[|s| - 64..]
  }

  /** The payee as the server takes it from its environment. */
  function PayeeHex(configured: string): string {
    Last64(PadStart(StripPrefix(configured, ACCOUNT_PREFIX), 64))
  }

  function AccountHashWithPrefix(hex: string): string {
    "00" + Last64(PadStart(StripLeadingZeros(hex), 64))
  }

  /** Used by the server on `from` and by the client on `payTo`. */
  function ParseAccountHash(s: string): string {
    Last64(PadStart(StripPrefix(StripPrefix(s, ACCOUNT_PREFIX), "00"), 64))
  }

  lemma {:induction false} LeadingZerosRestored(s: string)
    ensures var t := StripLeadingZeros(s); |t| <= |s| && s == Zeros(|s| - |t|) + t
    decreases |s|
  {
    if s != "" && s[0] == '0' {
      LeadingZerosRestored(s[1..]);
      var t := StripLeadingZeros(s);
      assert Zeros(|s| - |t|) == "0" + Zeros(|s| - 1 - |t|);
    }
  }

  lemma PayeeHas64(configured: string)
    ensures |PayeeHex(configured)| == 64
  {
  }

  /** Stripping all leading zeros and padding them back changes no 64-character hash. */
  lemma PrefixingIsPlain(hash: string)
    requires |hash| == 64
    ensures AccountHashWithPrefix(hash) == "00" + hash
  {
    LeadingZerosRestored(hash);
  }

  /** Parsing takes all three written forms of a hash back to it, also when the hash itself begins with zeros. */
  lemma ParsingRecovers(hash: string)
    requires |hash| == 64
    ensures ParseAccountHash("00" + hash) == hash
    ensures ParseAccountHash(ACCOUNT_PREFIX + hash) == hash
    ensures !(ACCOUNT_PREFIX <= hash) ==> ParseAccountHash(hash) == hash
  {
    var s := "00" + hash;
    assert s[0] == '0' && StripPrefix(s, ACCOUNT_PREFIX) == s;
    assert StripPrefix(s, "00") == hash;
    var a := ACCOUNT_PREFIX + hash;
    assert StripPrefix(a, ACCOUNT_PREFIX) == hash;
    if "00" <= hash {
      assert hash == Zeros(2) + hash[2..];
    }
  }

  // ---- what goes over the wire ----

  datatype Requirements = Requirements(network: string, payTo: string, amount: string, maxTimeoutSeconds: Option<int>)

  /** A timestamp is None when its text is no integer numeral. */
  datatype Authorization = Authorization(
    from: string, to: string, value: string, validAfter: Option<int>, validBefore: Option<int>, nonce: string)

  datatype Payload = Payload(acceptedNetwork: string, authorization: Option<Authorization>)

  /** The opaque part of verification: key and signature parse, what the two recovery bits give, whose key it is. */
  datatype Crypto = Crypto(wellFormed: bool, recovers: seq<bool>, accountHash: string)

  predicate Recovers(c: Crypto) {
    exists v :: 0 <= v < Min(2, |c.recovers|) && c.recovers[v]
  }

  datatype Verdict = Valid | Invalid(reason: Reason)
  datatype Reason =
    | MissingFields | NetworkMismatch | PayToMismatch | AmountMismatch | MalformedNonce | NonceUsed
    | Expired | NotYetValid | InsufficientTime | Exception | BadSignature | FromMismatch

  // ---- client ----

  function Honest(reqs: Requirements, amountOverride: string, agentHash: string, now: int, nonceHex: string): Payload {
    Payload(reqs.network, Some(Authorization(
      "00" + Last64(PadStart(agentHash, 64)),
      "00" + ParseAccountHash(reqs.payTo),
      if amountOverride != "" then amountOverride else reqs.amount,
      Some(now - 5),
      Some(now + if reqs.maxTimeoutSeconds.Some? then reqs.maxTimeoutSeconds.value else 600),
      nonceHex)))
  }

  method BuildPayload(served: Requirements, amountOverride: string, agentHash: string, now: int, nonceHex: string)
    returns (p: Payload)
    ensures p == Honest(served, amountOverride, agentHash, now, nonceHex)
  {
    var reqs := served;
    if amountOverride != "" {
      reqs := reqs.(amount := amountOverride);
    }
    var agentAccountHash := "00" + Last64(PadStart(agentHash, 64));
    var payTo := "00" + ParseAccountHash(reqs.payTo);
    var validAfter := now - 5;
    var validBefore := now + match reqs.maxTimeoutSeconds case Some(t) => t case None => 600;
    var auth := Authorization(agentAccountHash, payTo, reqs.amount, Some(validAfter), Some(validBefore), nonceHex);
    p := Payload(reqs.network, Some(auth));
  }

  // ---- server ----

  function Verify(used: set<string>, reqs: Requirements, p: Payload, c: Crypto, now: int): Verdict {
    match p.authorization
    case None => Invalid(MissingFields)
    case Some(auth) =>
      if p.acceptedNetwork != "" && p.acceptedNetwork != reqs.network then Invalid(NetworkMismatch)
      else if auth.to != reqs.payTo then Invalid(PayToMismatch)
      else if auth.value != reqs.amount then Invalid(AmountMismatch)
      else if |auth.nonce| != 64 then Invalid(MalformedNonce)
      else if auth.nonce in used then Invalid(NonceUsed)
      else if auth.validBefore.Some? && auth.validBefore.value < now then Invalid(Expired)
      else if auth.validAfter.Some? && auth.validAfter.value > now then Invalid(NotYetValid)
      else if auth.validBefore.Some? && auth.validBefore.value - now < 6 then Invalid(InsufficientTime)
      else if auth.validAfter.None? || auth.validBefore.None? || !c.wellFormed then Invalid(Exception)
      else if !Recovers(c) then Invalid(BadSignature)
      else if Last64(PadStart(c.accountHash, 64)) != ParseAccountHash(auth.from) then Invalid(FromMismatch)
      else Valid
  }

  /** Everything an accepted request must have. */
  predicate Acceptable(used: set<string>, reqs: Requirements, p: Payload, c: Crypto, now: int) {
    && p.authorization.Some?
    && var auth := p.authorization.value;
    && (p.acceptedNetwork == "" || p.acceptedNetwork == reqs.network)
    && auth.to == reqs.payTo && auth.value == reqs.amount
    && |auth.nonce| == 64 && auth.nonce !in used
    && auth.validAfter.Some? && auth.validBefore.Some?
    && auth.validAfter.value <= now && now + 6 <= auth.validBefore.value
    && c.wellFormed
    && |c.recovers| >= 1 && (c.recovers[0] || (|c.recovers| >= 2 && c.recovers[1]))
    && Last64(PadStart(c.accountHash, 64)) == ParseAccountHash(auth.from)
  }

  /** The number of a check in the order the checks are made; what is accepted has passed all twelve. */
  function Rank(v: Verdict): nat {
    match v
    case Valid => 12
    case Invalid(reason) =>
      match reason
      case MissingFields => 0
      case NetworkMismatch => 1
      case PayToMismatch => 2
      case AmountMismatch => 3
      case MalformedNonce => 4
      case NonceUsed => 5
      case Expired => 6
      case NotYetValid => 7
      case InsufficientTime => 8
      case Exception => 9
      case BadSignature => 10
      case FromMismatch => 11
  }

  /** Check number k fails. */
  predicate Fails(k: nat, used: set<string>, reqs: Requirements, p: Payload, c: Crypto, now: int) {
    if p.authorization == None then k == 0 else
      var auth := p.authorization.value;
      match k
      case 1 => p.acceptedNetwork != "" && p.acceptedNetwork != reqs.network
      case 2 => auth.to != reqs.payTo
      case 3 => auth.value != reqs.amount
      case 4 => |auth.nonce| != 64
      case 5 => auth.nonce in used
      case 6 => auth.validBefore.Some? && auth.validBefore.value < now
      case 7 => auth.validAfter.Some? && auth.validAfter.value > now
      case 8 => auth.validBefore.Some? && auth.validBefore.value < now + 6
      case 9 => auth.validAfter.None? || auth.validBefore.None? || !c.wellFormed
      case 10 => forall v :: 0 <= v < 2 && v < |c.recovers| ==> !c.recovers[v]
      case 11 => Last64(PadStart(c.accountHash, 64)) != ParseAccountHash(auth.from)
      case _ => false
  }

  /** The reason given is that of the first check that fails. */
  lemma FirstFailureIsGiven(used: set<string>, reqs: Requirements, p: Payload, c: Crypto, now: int)
    ensures var rank := Rank(Verify(used, reqs, p, c, now));
            && (rank < 12 ==> Fails(rank, used, reqs, p, c, now))
            && forall k: nat :: k < rank ==> !Fails(k, used, reqs, p, c, now)
  {
  }

  lemma AcceptableFailsNone(used: set<string>, reqs: Requirements, p: Payload, c: Crypto, now: int, k: nat)
    requires Acceptable(used, reqs, p, c, now)
    ensures !Fails(k, used, reqs, p, c, now)
  {
    if k == 10 {
      assert c.recovers[0] || (|c.recovers| >= 2 && c.recovers[1]);
    }
  }

  predicate WellAddressed(reqs: Requirements, p: Payload) {
    && p.authorization.Some? && (p.acceptedNetwork == "" || p.acceptedNetwork == reqs.network)
    && p.authorization.value.to == reqs.payTo && p.authorization.value.value == reqs.amount
  }

  lemma WellAddressedIf(used: set<string>, reqs: Requirements, p: Payload, c: Crypto, now: int)
    requires forall k: nat :: k < 4 ==> !Fails(k, used, reqs, p, c, now)
    ensures WellAddressed(reqs, p)
  {
    assert !Fails(0, used, reqs, p, c, now) && !Fails(1, used, reqs, p, c, now);
    assert !Fails(2, used, reqs, p, c, now) && !Fails(3, used, reqs, p, c, now);
  }

  lemma AllPassed(used: set<string>, reqs: Requirements, p: Payload, c: Crypto, now: int)
    requires forall k: nat :: k < 12 ==> !Fails(k, used, reqs, p, c, now)
    ensures Acceptable(used, reqs, p, c, now)
  {
    WellAddressedIf(used, reqs, p, c, now);
    assert !Fails(4, used, reqs, p, c, now) && !Fails(5, used, reqs, p, c, now);
    assert !Fails(6, used, reqs, p, c, now) && !Fails(7, used, reqs, p, c, now) && !Fails(8, used, reqs, p, c, now);
    assert !Fails(9, used, reqs, p, c, now) && !Fails(10, used, reqs, p, c, now) && !Fails(11, used, reqs, p, c, now);
  }

  /** A request is accepted iff it has all that it must have; whatever lacks any part of it is refused. */
  lemma AcceptedIff(used: set<string>, reqs: Requirements, p: Payload, c: Crypto, now: int)
    ensures Verify(used, reqs, p, c, now) == Valid <==> Acceptable(used, reqs, p, c, now)
  {
    FirstFailureIsGiven(used, reqs, p, c, now);
    var rank := Rank(Verify(used, reqs, p, c, now));
    if rank < 12 {
      if Acceptable(used, reqs, p, c, now) {
        AcceptableFailsNone(used, reqs, p, c, now, rank);
      }
    } else {
      AllPassed(used, reqs, p, c, now);
    }
  }

  class Server {
    var usedNonces: set<string>
    const reqs: Requirements

    constructor (network: string, configuredPayee: string, priceMotes: string)
      ensures usedNonces == {} && reqs == Requirements(network, "00" + PayeeHex(configuredPayee), priceMotes, Some(600))
    {
      usedNonces := {};
      PayeeHas64(configuredPayee);
      PrefixingIsPlain(PayeeHex(configuredPayee));
      reqs := Requirements(network, AccountHashWithPrefix(PayeeHex(configuredPayee)), priceMotes, Some(600));
    }

    method VerifySignature(p: Payload, c: Crypto, now: int) returns (v: Verdict)
      modifies this
      ensures v == Verify(old(usedNonces), reqs, p, c, now)
      ensures usedNonces == if v == Valid then old(usedNonces) + {p.authorization.value.nonce} else old(usedNonces)
    {
      if p.authorization == None {
        return Invalid(MissingFields);
      }
      var auth := p.authorization.value;
      if p.acceptedNetwork != "" && p.acceptedNetwork != reqs.network {
        return Invalid(NetworkMismatch);
      }
      if auth.to != reqs.payTo {
        return Invalid(PayToMismatch);
      }
      if auth.value != reqs.amount {
        return Invalid(AmountMismatch);
      }
      if |auth.nonce| != 64 {
        return Invalid(MalformedNonce);
      }
      if auth.nonce in usedNonces {
        return Invalid(NonceUsed);
      }
      if auth.validBefore.Some? && auth.validBefore.value < now {
        return Invalid(Expired);
      }
      if auth.validAfter.Some? && auth.validAfter.value > now {
        return Invalid(NotYetValid);
      }
      if auth.validBefore.Some? && auth.validBefore.value - now < 6 {
        return Invalid(InsufficientTime);
      }
      if auth.validAfter.None? || auth.validBefore.None? || !c.wellFormed {
        return Invalid(Exception);
      }
      var recovered := false;
      for bit := 0 to Min(2, |c.recovers|)
        invariant !recovered && forall b :: 0 <= b < bit ==> !c.recovers[b]
      {
        if c.recovers[bit] {
          recovered := true;
          break;
        }
      }
      if !recovered {
        return Invalid(BadSignature);
      }
      if Last64(PadStart(c.accountHash, 64)) != ParseAccountHash(auth.from) {
        return Invalid(FromMismatch);
      }
      usedNonces := usedNonces + {auth.nonce};
      v := Valid;
    }
  }

  // ---- the handshake ----

  /** Without a timeout from the server the client takes ten minutes. */
  lemma TenMinutesByDefault(reqs: Requirements, amountOverride: string, agentHash: string, now: int, nonceHex: string)
    requires reqs.maxTimeoutSeconds == None
    ensures Honest(reqs, amountOverride, agentHash, now, nonceHex)
         == Honest(reqs.(maxTimeoutSeconds := Some(600)), amountOverride, agentHash, now, nonceHex)
    ensures Honest(reqs, amountOverride, agentHash, now, nonceHex).authorization.value.validBefore == Some(now + 600)
  {
  }

  /** All ways the payee may be configured, also behind any other lead, stand for the same hash. */
  lemma PayeeRecovers(lead: string, hash: string)
    requires |hash| == 64
    ensures PayeeHex(ACCOUNT_PREFIX + hash) == hash
    ensures !(ACCOUNT_PREFIX <= lead + hash) ==> PayeeHex(lead + hash) == hash
  {
    var a := ACCOUNT_PREFIX + hash;
    assert StripPrefix(a, ACCOUNT_PREFIX) == hash;
  }

  predicate Genuine(c: Crypto, agentHash: string) {
    c.wellFormed && Recovers(c) && c.accountHash == agentHash
  }

  /** Address normalisation on the two sides composes to the identity, for the payee and for the payer. */
  lemma HonestFields(
    network: string, payee: string, price: string, timeout: int, amountOverride: string,
    agentHash: string, clientNow: int, nonceHex: string)
    requires |payee| == 64
    ensures var reqs := Requirements(network, AccountHashWithPrefix(payee), price, Some(timeout));
            var auth := Honest(reqs, amountOverride, agentHash, clientNow, nonceHex).authorization.value;
            && auth.to == reqs.payTo == "00" + payee
            && ParseAccountHash(auth.from) == Last64(PadStart(agentHash, 64))
  {
    PrefixingIsPlain(payee);
    ParsingRecovers(payee);
    ParsingRecovers(Last64(PadStart(agentHash, 64)));
  }

  lemma WellAddressedAcceptedIff(used: set<string>, reqs: Requirements, p: Payload, c: Crypto, now: int)
    requires p.authorization.Some? && p.acceptedNetwork == reqs.network && c.wellFormed && Recovers(c)
    requires var auth := p.authorization.value;
             && auth.to == reqs.payTo && |auth.nonce| == 64
             && auth.validAfter.Some? && auth.validBefore.Some?
             && Last64(PadStart(c.accountHash, 64)) == ParseAccountHash(auth.from)
    ensures var auth := p.authorization.value;
            Verify(used, reqs, p, c, now) == Valid <==>
              && auth.value == reqs.amount && auth.nonce !in used
              && auth.validAfter.value <= now <= auth.validBefore.value - 6
  {
  }

  /**
   A payload the client builds from the server's own requirements, with a genuine signature, is accepted iff the amount
   was not overridden to another one, the nonce is fresh, and the server's clock is within -5 and T - 6 seconds of the
   client's.
   */
  lemma HonestAcceptedIff(
    used: set<string>, network: string, payee: string, price: string, timeout: int, amountOverride: string,
    agentHash: string, c: Crypto, clientNow: int, serverNow: int, nonceHex: string)
    requires |payee| == 64 && |nonceHex| == 64 && Genuine(c, agentHash)
    ensures var reqs := Requirements(network, AccountHashWithPrefix(payee), price, Some(timeout));
            Verify(used, reqs, Honest(reqs, amountOverride, agentHash, clientNow, nonceHex), c, serverNow) == Valid <==>
              && (amountOverride == "" || amountOverride == price)
              && nonceHex !in used
              && -5 <= serverNow - clientNow <= timeout - 6
  {
    HonestFields(network, payee, price, timeout, amountOverride, agentHash, clientNow, nonceHex);
    var reqs := Requirements(network, AccountHashWithPrefix(payee), price, Some(timeout));
    WellAddressedAcceptedIff(used, reqs, Honest(reqs, amountOverride, agentHash, clientNow, nonceHex), c, serverNow);
  }

  datatype Request = Request(payload: Payload, crypto: Crypto, now: int)

  /** The server's nonce store after serving the requests one after another. */
  function UsedAfter(used: set<string>, reqs: Requirements, requests: seq<Request>): set<string> {
    if requests == [] then used else
      var before, r := UsedAfter(used, reqs, requests[..|requests| - 1]), requests[|requests| - 1];
      if Verify(before, reqs, r.payload, r.crypto, r.now) == Valid
      then before + {r.payload.authorization.value.nonce} else before
  }

  /** The nonces of the accepted requests, in the order of acceptance. */
  function AcceptedNonces(used: set<string>, reqs: Requirements, requests: seq<Request>): seq<string> {
    if requests == [] then [] else
      var before, r := requests[..|requests| - 1], requests[|requests| - 1];
      AcceptedNonces(used, reqs, before) +
      if Verify(UsedAfter(used, reqs, before), reqs, r.payload, r.crypto, r.now) == Valid
      then [r.payload.authorization.value.nonce] else []
  }

  ghost predicate Distinct(ns: seq<string>) {
    forall i, j :: 0 <= i < j < |ns| ==> ns[i] != ns[j]
  }

  lemma DistinctAppend(ns: seq<string>, n: string)
    requires Distinct(ns) && n !in ns
    ensures Distinct(ns + [n])
  {
    forall i | 0 <= i < |ns| ensures ns[i] != n {
      assert ns[i] in ns;
    }
  }

  lemma ValidIsFresh(used: set<string>, reqs: Requirements, p: Payload, c: Crypto, now: int)
    ensures Verify(used, reqs, p, c, now) == Valid ==> p.authorization.Some? && p.authorization.value.nonce !in used
  {
  }

  /**
   Over any sequence of requests, with any payloads and any clock, no nonce is accepted twice and none that was used
   before; the store holds exactly those used before and those accepted.
   */
  lemma {:induction false} NoReplay(used: set<string>, reqs: Requirements, requests: seq<Request>)
    ensures var ns := AcceptedNonces(used, reqs, requests);
            && Distinct(ns)
            && (forall n :: n in ns ==> n !in used)
            && (forall n :: n in UsedAfter(used, reqs, requests) <==> n in used || n in ns)
  {
    if requests != [] {
      var before, r := requests[..|requests| - 1], requests[|requests| - 1];
      NoReplay(used, reqs, before);
      var store, ns := UsedAfter(used, reqs, before), AcceptedNonces(used, reqs, before);
      ValidIsFresh(store, reqs, r.payload, r.crypto, r.now);
      if Verify(store, reqs, r.payload, r.crypto, r.now) == Valid {
        DistinctAppend(ns, r.payload.authorization.value.nonce);
      } else {
        assert AcceptedNonces(used, reqs, requests) == ns;
      }
    }
  }

  // ---- nonces as the 32 bytes that are signed ----

  predicate IsHexText(n: string) {
    |n| == 64 && forall i :: 0 <= i < 64 ==> JsonText.IsHexDigit(n[i])
  }

  function Nibble(c: char): nat
    requires JsonText.IsHexDigit(c)
  {
    if c <= '9' then c as int - '0' as int
    else if c <= 'F' then c as int - 'A' as int + 10
    else c as int - 'a' as int + 10
  }

  /** The bytes a nonce text is read as, half a byte each. */
  function Bytes(n: string): seq<nat>
    requires IsHexText(n)
  {
    seq(64, i requires 0 <= i < 64 => Nibble(n[i]))
  }

  ghost predicate SameBytes(m: string, n: string) {
    IsHexText(m) && IsHexText(n) && Bytes(m) == Bytes(n)
  }

  lemma SameBytesAt(m: string, n: string)
    requires IsHexText(m) && IsHexText(n)
    ensures SameBytes(m, n) <==> forall i :: 0 <= i < 64 ==> Nibble(m[i]) == Nibble(n[i])
  {
    if SameBytes(m, n) {
      forall i | 0 <= i < 64 ensures Nibble(m[i]) == Nibble(n[i]) {
        assert Bytes(m)[i] == Nibble(m[i]) && Bytes(n)[i] == Nibble(n[i]);
      }
    }
  }

  predicate LowerCase(n: string) {
    IsHexText(n) && forall i :: 0 <= i < 64 ==> !('A' <= n[i] <= 'F')
  }

  predicate HasLetter(n: string) {
    exists i :: 0 <= i < |n| && n[i] > '9'
  }

  lemma LowerCaseSpellsOnce(m: string, n: string)
    requires LowerCase(m) && LowerCase(n) && SameBytes(m, n)
    ensures m == n
  {
    SameBytesAt(m, n);
    forall i | 0 <= i < 64 ensures m[i] == n[i] {
      assert Nibble(m[i]) == Nibble(n[i]);
    }
  }

  /** With lower-case nonces, as the client writes them, no 32-byte value is accepted twice, nor one used before. */
  lemma NoByteReplay(used: set<string>, reqs: Requirements, requests: seq<Request>)
    requires forall n :: n in used || n in AcceptedNonces(used, reqs, requests) ==> LowerCase(n)
    ensures var ns := AcceptedNonces(used, reqs, requests);
            && (forall i, j :: 0 <= i < j < |ns| ==> !SameBytes(ns[i], ns[j]))
            && (forall n, m :: n in ns && m in used ==> !SameBytes(n, m))
  {
    NoReplay(used, reqs, requests);
    var ns := AcceptedNonces(used, reqs, requests);
    forall i, j | 0 <= i < j < |ns| ensures !SameBytes(ns[i], ns[j]) {
      if SameBytes(ns[i], ns[j]) {
        assert ns[i] in ns && ns[j] in ns;
        LowerCaseSpellsOnce(ns[i], ns[j]);
      }
    }
    forall n, m | n in ns && m in used ensures !SameBytes(n, m) {
      if SameBytes(n, m) {
        LowerCaseSpellsOnce(n, m);
      }
    }
  }

  function OtherCase(c: char): char
    requires JsonText.IsHexDigit(c)
  {
    if c <= '9' then c
    else if c <= 'F' then (c as int - 'A' as int + 'a' as int) as char
    else (c as int - 'a' as int + 'A' as int) as char
  }

  /** A nonce has a second spelling iff it holds a letter. */
  lemma SpelledOnceIff(n: string)
    requires IsHexText(n)
    ensures (exists m :: m != n && SameBytes(m, n)) <==> HasLetter(n)
  {
    if HasLetter(n) {
      var i :| 0 <= i < 64 && n[i] > '9';
      var m := n[i := OtherCase(n[i])];
      assert m[i] != n[i];
      SameBytesAt(m, n);
      assert SameBytes(m, n);
    } else if m :| m != n && SameBytes(m, n) {
      SameBytesAt(m, n);
      forall i | 0 <= i < 64 ensures m[i] == n[i] {
        assert Nibble(n[i]) < 10 && Nibble(m[i]) == Nibble(n[i]);
      }
    }
  }

  function WithNonce(p: Payload, n: string): Payload
    requires p.authorization.Some?
  {
    p.(authorization := Some(p.authorization.value.(nonce := n)))
  }

  /** Right after p is accepted, p with its nonce spelled as m, for the same bytes, is accepted too. */
  ghost predicate AcceptedAgain(used: set<string>, reqs: Requirements, p: Payload, c: Crypto, now: int, m: string)
    requires p.authorization.Some?
  {
    var n := p.authorization.value.nonce;
    SameBytes(m, n) && Verify(used + {n}, reqs, WithNonce(p, m), c, now) == Valid
  }

  lemma RespelledAcceptedIff(used: set<string>, reqs: Requirements, p: Payload, c: Crypto, now: int, m: string)
    requires Verify(used, reqs, p, c, now) == Valid
    ensures AcceptedAgain(used, reqs, p, c, now, m) <==>
              SameBytes(m, p.authorization.value.nonce) && m != p.authorization.value.nonce && m !in used
  {
  }

  /**
   The same signature covers every spelling of the nonce, while the store compares texts: right after its acceptance a
   payload is accepted again, under some spelling of the same bytes, iff some other spelling is not in the store.
   */
  lemma AcceptedAgainIff(used: set<string>, reqs: Requirements, p: Payload, c: Crypto, now: int)
    requires Verify(used, reqs, p, c, now) == Valid && IsHexText(p.authorization.value.nonce)
    ensures var n := p.authorization.value.nonce;
            (exists m :: AcceptedAgain(used, reqs, p, c, now, m)) <==>
            (exists m :: SameBytes(m, n) && m != n && m !in used)
  {
    var n := p.authorization.value.nonce;
    forall m | SameBytes(m, n) ensures AcceptedAgain(used, reqs, p, c, now, m) <==> m != n && m !in used {
      RespelledAcceptedIff(used, reqs, p, c, now, m);
    }
    if m :| SameBytes(m, n) && m != n && m !in used {
      assert AcceptedAgain(used, reqs, p, c, now, m);
    }
  }

  /** Where the store holds no spelling of the value yet, that is iff the nonce holds a letter. */
  lemma FreshAcceptedAgainIff(used: set<string>, reqs: Requirements, p: Payload, c: Crypto, now: int)
    requires Verify(used, reqs, p, c, now) == Valid && IsHexText(p.authorization.value.nonce)
    requires forall m :: m in used ==> !SameBytes(m, p.authorization.value.nonce)
    ensures (exists m :: AcceptedAgain(used, reqs, p, c, now, m)) <==> HasLetter(p.authorization.value.nonce)
  {
    SpelledOnceIff(p.authorization.value.nonce);
    AcceptedAgainIff(used, reqs, p, c, now);
  }

  function Repeated(c: char): string { seq(64, _ => c) }

  lemma TwoSpellings()
    ensures SameBytes(Repeated('A'), Repeated('a')) && Repeated('A') != Repeated('a')
  {
    SameBytesAt(Repeated('A'), Repeated('a'));
    assert Repeated('A')[0] != Repeated('a')[0];
  }

  /** The client's own payload, seen by the server in the second it was built. */
  predicate AcceptedAtOnce(
    used: set<string>, network: string, payee: string, price: string, agentHash: string, c: Crypto, now: int, n: string)
  {
    var reqs := Requirements(network, AccountHashWithPrefix(payee), price, Some(600));
    Verify(used, reqs, Honest(reqs, "", agentHash, now, n), c, now) == Valid
  }

  lemma FreshAcceptedAtOnce(
    used: set<string>, network: string, payee: string, price: string, agentHash: string, c: Crypto, now: int, n: string)
    requires |payee| == 64 && Genuine(c, agentHash) && |n| == 64 && n !in used
    ensures AcceptedAtOnce(used, network, payee, price, agentHash, c, now, n)
  {
    HonestAcceptedIff(used, network, payee, price, 600, "", agentHash, c, now, now, n);
  }

  /** Such a pair from the client's own payload: the nonce "aa..a", then "AA..A". */
  lemma TwoSpellingsAccepted(network: string, payee: string, price: string, agentHash: string, c: Crypto, now: int)
    requires |payee| == 64 && Genuine(c, agentHash)
    ensures var n, m := Repeated('a'), Repeated('A');
            && SameBytes(m, n)
            && AcceptedAtOnce({}, network, payee, price, agentHash, c, now, n)
            && AcceptedAtOnce({n}, network, payee, price, agentHash, c, now, m)
  {
    var n, m := Repeated('a'), Repeated('A');
    TwoSpellings();
    FreshAcceptedAtOnce({}, network, payee, price, agentHash, c, now, n);
    FreshAcceptedAtOnce({n}, network, payee, price, agentHash, c, now, m);
  }
}
