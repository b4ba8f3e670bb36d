/**
 The scanner that cuts a transaction out of free text: one pass with a depth, an in-string flag and an escape flag.
 It is proved twice: against brace balance outside strings, for any text at all,
 and against the JSON grammar, for any object followed by anything.
 */
module TxScanner {
  import opened Prelude
  import opened JsonText

  datatype Mode = Mode(depth: int, inStr: bool, escape: bool)

  const START := Mode(0, false, false)

  function Feed(m: Mode, c: char): Mode {
    if m.escape then m.(escape := false)
    else if c == '\\' then m.(escape := true)
    else if c == '"' then m.(inStr := !m.inStr)
    else if m.inStr then m
    else if c == '{' then m.(depth := m.depth + 1)
    else if c == '}' then m.(depth := m.depth - 1)
    else m
  }

  /** The character at which the scanner ends the object. */
  predicate Stops(m: Mode, c: char) {
    !m.escape && !m.inStr && c == '}' && m.depth == 1
  }

  /** Feeds s; None if the scanner would have stopped inside it. */
  function Pass(m: Mode, s: string): Option<Mode>
    decreases |s|
  {
    if s == "" then Some(m) else if Stops(m, s[0]) then None else Pass(Feed(m, s[0]), s[1..])
  }

  /** Where the scan of text from i, in mode m, stops. */
  function FindEnd(m: Mode, text: string, i: nat): (end: Option<nat>)
    ensures end.Some? ==> i <= end.value < |text|
    decreases |text| - i
  {
    if i >= |text| then None
    else if Stops(m, text[i]) then Some(i)
    else FindEnd(Feed(m, text[i]), text, i + 1)
  }

  function Extract(text: string, start: nat): Option<string> {
    match FindEnd(START, text, start)
    case None => None
    case Some(end) => Some(text[start..end + 1])
  }

  method ExtractTx(text: string, start: nat) returns (r: Option<string>)
    ensures r == Extract(text, start)
  {
    var depth := 0;
    var inStr := false;
    var escape := false;
    var end := -1;
    var i := start;
    while i < |text|
      invariant start <= i
      invariant end == -1
      invariant FindEnd(START, text, start) == FindEnd(Mode(depth, inStr, escape), text, i)
    {
      var c := text[i];
      i := i + 1;
      if escape {
        escape := false;
        continue;
      }
      if c == '\\' {
        escape := true;
        continue;
      }
      if c == '"' {
        inStr := !inStr;
        continue;
      }
      if inStr {
        continue;
      }
      if c == '{' {
        depth := depth + 1;
      } else if c == '}' {
        depth := depth - 1;
        if depth == 0 {
          end := i - 1;
          break;
        }
      }
    }
    if end == -1 {
      return None;
    }
    r := Some(text[start..end + 1]);
  }

  // ---- brace balance, for any text ----

  function TrailingBackslashes(s: string): nat {
    if s == "" || s[|s| - 1] != '\\' then 0 else 1 + TrailingBackslashes(s[..|s| - 1])
  }

  /** The character after s is escaped: an odd run of backslashes precedes it. */
  predicate Escapes(s: string) {
    TrailingBackslashes(s) % 2 == 1
  }

  function UnescapedQuotes(s: string): nat {
    if s == "" then 0 else
      var s', c := s[..|s| - 1], s[|s| - 1];
      UnescapedQuotes(s') + if c == '"' && !Escapes(s') then 1 else 0
  }

  /** The character after s is structure: outside every string and not escaped. */
  predicate Outside(s: string) {
    UnescapedQuotes(s) % 2 == 0 && !Escapes(s)
  }

  /** Opening minus closing braces among the structural characters of s. */
  function Balance(s: string): int {
    if s == "" then 0 else
      var s', c := s[..|s| - 1], s[|s| - 1];
      Balance(s') + if !Outside(s') then 0 else if c == '{' then 1 else if c == '}' then -1 else 0
  }

  /** s ends at a structural brace that brings the balance to zero. */
  predicate EndsBalanced(s: string) {
    s != "" && s[|s| - 1] == '}' && Outside(s[..|s| - 1]) && Balance(s) == 0
  }

  /** The stretch of text from start through e is balanced. */
  predicate BalancedThrough(text: string, start: nat, e: int)
    requires start <= e < |text|
  {
    EndsBalanced(text[start..e + 1])
  }

  function ModeOf(s: string): Mode {
    Mode(Balance(s), UnescapedQuotes(s) % 2 == 1, Escapes(s))
  }

  /** One more character moves the counted mode exactly as the scanner moves. */
  lemma ModeStep(s: string, c: char)
    ensures ModeOf(s + [c]) == Feed(ModeOf(s), c)
    ensures Stops(ModeOf(s), c) <==> EndsBalanced(s + [c])
  {
    assert (s + [c])[..|s|] == s;
  }

  lemma {:induction false} EndIsFirstBalanced(text: string, start: nat, i: nat)
    requires start <= i <= |text|
    ensures var end := FindEnd(ModeOf(text[start..i]), text, i);
            && (end.Some? ==> BalancedThrough(text, start, end.value))
            && forall e :: i <= e < |text| && (end.Some? ==> e < end.value) ==> !BalancedThrough(text, start, e)
    decreases |text| - i
  {
    if i < |text| {
      assert text[start..i + 1] == text[start..i] + [text[i]];
      ModeStep(text[start..i], text[i]);
      if !Stops(ModeOf(text[start..i]), text[i]) {
        EndIsFirstBalanced(text, start, i + 1);
      }
    }
  }

  /** The result is the shortest balanced stretch from start, and null exactly when there is none. */
  lemma ExtractIsFirstBalanced(text: string, start: nat)
    requires start <= |text|
    ensures Extract(text, start).None? <==> forall e :: start <= e < |text| ==> !BalancedThrough(text, start, e)
    ensures Extract(text, start).Some? ==>
              exists e :: start <= e < |text| && BalancedThrough(text, start, e) &&
                          Extract(text, start) == Some(text[start..e + 1]) &&
                          forall k :: start <= k < e ==> !BalancedThrough(text, start, k)
  {
    assert text[start..start] == "" && ModeOf("") == START;
    EndIsFirstBalanced(text, start, start);
    var end := FindEnd(START, text, start);
    if end.Some? {
      assert BalancedThrough(text, start, end.value);
    }
  }

  // ---- JSON objects ----

  lemma {:induction false} PassConcat(m: Mode, a: string, m': Mode, b: string)
    requires Pass(m, a) == Some(m')
    ensures Pass(m, a + b) == Pass(m', b)
    decreases |a|
  {
    if a == "" {
      assert a + b == b;
    } else {
      PassConcat(Feed(m, a[0]), a[1..], m', b);
      assert (a + b)[1..] == a[1..] + b;
    }
  }

  predicate Inert(s: string) {
    forall i :: 0 <= i < |s| ==> s[i] != '"' && s[i] != '\\' && s[i] != '{' && s[i] != '}'
  }

  lemma {:induction false} PassInert(m: Mode, s: string)
    requires !m.escape && (m.inStr || Inert(s))
    requires forall i :: 0 <= i < |s| ==> s[i] != '"' && s[i] != '\\'
    ensures Pass(m, s) == Some(m)
    decreases |s|
  {
    if s != "" {
      PassInert(m, s[1..]);
    }
  }

  lemma {:induction false} PassChars(d: int, chars: seq<StrChar>)
    requires StrWellFormed(chars)
    ensures Pass(Mode(d, true, false), PrintChars(chars)) == Some(Mode(d, true, false))
    decreases |chars|
  {
    if chars != [] {
      var m, c := Mode(d, true, false), chars[0];
      assert c.WellFormed();
      if c.Plain? {
        PassInert(m, c.Print());
      } else {
        var tail := c.Print()[2..];
        assert c.Print()[1..][1..] == tail;
        PassInert(m, tail);
      }
      PassConcat(m, c.Print(), m, PrintChars(chars[1..]));
      PassChars(d, chars[1..]);
    }
  }

  lemma PassStr(d: int, chars: seq<StrChar>)
    requires StrWellFormed(chars)
    ensures Pass(Mode(d, false, false), PrintStr(chars)) == Some(Mode(d, false, false))
  {
    var m := Mode(d, true, false);
    PassChars(d, chars);
    PassConcat(m, PrintChars(chars), m, "\"");
    assert PrintStr(chars)[1..] == PrintChars(chars) + "\"";
    assert Pass(m, "\"") == Some(Mode(d, false, false)) by {
      assert "\""[1..] == "";
    }
  }

  /** Inside an open object, any value passes through the scanner without moving it. */
  lemma {:induction false} PassValue(d: int, v: Json)
    requires d >= 1 && WellFormed(v)
    ensures Pass(Mode(d, false, false), Print(v)) == Some(Mode(d, false, false))
    decreases v, 1
  {
    var m := Mode(d, false, false);
    match v {
      case Literal(_) => PassInert(m, Print(v));
      case Num(n) => PassInert(m, n.Print());
      case Str(chars) => PassStr(d, chars);
      case Array(_, _) => PassArray(d, v);
      case Object(_, _) => PassObject(d, v);
    }
  }

  lemma PassObject(d: int, v: Json)
    requires d >= 1 && v.Object? && WellFormed(v)
    ensures Pass(Mode(d, false, false), Print(v)) == Some(Mode(d, false, false))
    decreases v, 0, 1
  {
    var m := Mode(d, false, false);
    PassObjectBody(d, v);
    PassConcat(m, "{" + v.lead + PrintMembers(v.members), Mode(d + 1, false, false), "}");
    assert "}"[1..] == "";
  }

  lemma PassArray(d: int, v: Json)
    requires d >= 1 && v.Array? && WellFormed(v)
    ensures Pass(Mode(d, false, false), Print(v)) == Some(Mode(d, false, false))
    decreases v, 0
  {
    var m, open := Mode(d, false, false), "[" + v.lead;
    PassInert(m, open);
    PassItems(d, v.items);
    PassInert(m, "]");
    PassConcat(m, open, m, PrintItems(v.items));
    PassConcat(m, open + PrintItems(v.items), m, "]");
  }

  /** From the opening brace up to, but not including, the closing one. */
  lemma PassObjectBody(d: int, v: Json)
    requires d >= 0 && v.Object? && WellFormed(v)
    ensures Pass(Mode(d, false, false), "{" + v.lead + PrintMembers(v.members)) == Some(Mode(d + 1, false, false))
    decreases v, 0, 0
  {
    var m0, m := Mode(d, false, false), Mode(d + 1, false, false);
    assert Pass(m0, "{") == Some(m) by {
      assert "{"[1..] == "";
    }
    PassInert(m, v.lead);
    PassMembers(d + 1, v.members);
    PassConcat(m0, "{", m, v.lead);
    PassConcat(m0, "{" + v.lead, m, PrintMembers(v.members));
  }

  /** A comma-separated element: some front part, a value, trailing space, perhaps a comma, and the rest. */
  lemma PassElement(m: Mode, front: string, value: string, after: string, sep: string, rest: string)
    requires forall s :: s in {front, value, after, sep, rest} ==> Pass(m, s) == Some(m)
    ensures Pass(m, front + value + after + sep + rest) == Some(m)
  {
    PassConcat(m, front, m, value);
    PassConcat(m, front + value, m, after);
    PassConcat(m, front + value + after, m, sep);
    PassConcat(m, front + value + after + sep, m, rest);
  }

  lemma {:induction false} PassItems(d: int, items: Items)
    requires d >= 1 && ItemsWellFormed(items)
    ensures Pass(Mode(d, false, false), PrintItems(items)) == Some(Mode(d, false, false))
    decreases items, 0
  {
    match items {
      case NoItem =>
      case Item(before, value, after, rest) =>
        var m := Mode(d, false, false);
        var sep := if rest.NoItem? then "" else ",";
        PassInert(m, before);
        PassValue(d, value);
        PassInert(m, after);
        PassInert(m, sep);
        PassItems(d, rest);
        PassElement(m, before, Print(value), after, sep, PrintItems(rest));
    }
  }

  lemma PassKey(d: int, before: string, key: seq<StrChar>, afterKey: string, beforeValue: string)
    requires IsWs(before) && StrWellFormed(key) && IsWs(afterKey) && IsWs(beforeValue)
    ensures Pass(Mode(d, false, false), KeyText(before, key, afterKey, beforeValue)) == Some(Mode(d, false, false))
  {
    var m := Mode(d, false, false);
    PassInert(m, before);
    PassStr(d, key);
    PassInert(m, afterKey + ":" + beforeValue);
    PassConcat(m, before, m, PrintStr(key));
    PassConcat(m, before + PrintStr(key), m, afterKey + ":" + beforeValue);
  }

  lemma {:induction false} PassMembers(d: int, members: Members)
    requires d >= 1 && MembersWellFormed(members)
    ensures Pass(Mode(d, false, false), PrintMembers(members)) == Some(Mode(d, false, false))
    decreases members, 0
  {
    match members {
      case NoMember =>
      case Member(before, key, afterKey, beforeValue, value, after, rest) =>
        var m := Mode(d, false, false);
        var sep := if rest.NoMember? then "" else ",";
        PassKey(d, before, key, afterKey, beforeValue);
        PassValue(d, value);
        PassInert(m, after);
        PassInert(m, sep);
        PassMembers(d, rest);
        PassElement(m, KeyText(before, key, afterKey, beforeValue), Print(value), after, sep, PrintMembers(rest));
    }
  }

  lemma {:induction false} PassedOver(m: Mode, text: string, i: nat, s: string, m': Mode)
    requires i + |s| <= |text| && text[i..i + |s|] == s
    requires Pass(m, s) == Some(m')
    ensures FindEnd(m, text, i) == FindEnd(m', text, i + |s|)
    decreases |s|
  {
    if s != "" {
      assert s[0] == text[i];
      assert text[i + 1..i + |s|] == s[1..];
      PassedOver(Feed(m, s[0]), text, i + 1, s[1..], m');
    }
  }

  /** The object's own text is cut out exactly, whatever it nests or quotes and whatever surrounds it. */
  lemma ExtractsObject(pre: string, v: Json, suffix: string)
    requires v.Object? && WellFormed(v)
    ensures Extract(pre + Print(v) + suffix, |pre|) == Some(Print(v))
  {
    var text, body := pre + Print(v) + suffix, "{" + v.lead + PrintMembers(v.members);
    PassObjectBody(0, v);
    assert text[|pre|..|pre| + |body|] == body;
    PassedOver(START, text, |pre|, body, Mode(1, false, false));
    assert text[|pre| + |body|] == '}';
    assert text[|pre|..|pre| + |body| + 1] == Print(v);
  }

  // ---- finding the opening brace from the hash anchor ----

  /** p is where the walk back from the anchor ends: the nearest opening brace at or before it, or 0. */
  predicate NearestBrace(text: string, anchor: nat, p: nat) {
    && p <= anchor < |text|
    && (p == 0 || text[p] == '{')
    && forall i :: p < i <= anchor ==> text[i] != '{'
  }

  function Opening(text: string, anchor: nat): (p: nat)
    requires anchor < |text|
    ensures NearestBrace(text, anchor, p)
  {
    if anchor > 0 && text[anchor] != '{' then Opening(text, anchor - 1) else anchor
  }

  method WalkBack(text: string, anchor: nat) returns (p: nat)
    requires anchor < |text|
    ensures NearestBrace(text, anchor, p) && p == Opening(text, anchor)
  {
    p := anchor;
    while p > 0 && text[p] != '{'
      invariant p <= anchor
      invariant forall i :: p < i <= anchor ==> text[i] != '{'
    {
      p := p - 1;
    }
  }

  /** What the script keeps for one anchor, and from where: nothing if the walk ended at 0. */
  function FromAnchor(text: string, anchor: nat): Option<(nat, string)>
    requires anchor < |text|
  {
    var p := Opening(text, anchor);
    if p == 0 then None else
      match Extract(text, p)
      case None => None
      case Some(found) => Some((p, found))
  }

  /**
   From an anchor anywhere in an object, the script cuts out exactly that object, if and only if some text precedes the
   object and no other opening brace lies between its own and the anchor.
   */
  lemma AnchorRecoversObject(pre: string, v: Json, suffix: string, anchor: nat)
    requires v.Object? && WellFormed(v) && |pre| <= anchor < |pre| + |Print(v)|
    ensures var text := pre + Print(v) + suffix;
            FromAnchor(text, anchor) == Some((|pre|, Print(v))) <==>
              pre != "" && forall i :: |pre| < i <= anchor ==> text[i] != '{'
  {
    var text := pre + Print(v) + suffix;
    assert text[|pre|] == Print(v)[0] == '{';
    assert NearestBrace(text, anchor, Opening(text, anchor));
    ExtractsObject(pre, v, suffix);
  }

  /** So on an object's first key the script succeeds iff some text precedes the object; at position 0 it is dropped. */
  lemma FirstKeyRecoversObject(pre: string, v: Json, suffix: string)
    requires v.Object? && WellFormed(v) && v.members.Member?
    ensures var anchor := |pre| + 1 + |v.lead| + |v.members.before|;
            && anchor < |pre + Print(v) + suffix|
            && (FromAnchor(pre + Print(v) + suffix, anchor) == Some((|pre|, Print(v))) <==> pre != "")
  {
    var text := pre + Print(v) + suffix;
    var anchor := |pre| + 1 + |v.lead| + |v.members.before|;
    var head := "{" + v.lead + v.members.before + "\"";
    assert head <= Print(v);
    assert text[|pre|..|pre| + |head|] == head;
    forall i | |pre| < i <= anchor ensures text[i] != '{' {
      assert text[i] == head[i - |pre|];
    }
    AnchorRecoversObject(pre, v, suffix, anchor);
  }
}
