/** The balance formatter, against a decimal reader that knows nothing of its padding and stripping. */
module BalanceFormat {
  import opened Prelude
  import opened Decimal

  function FormatCep18Balance(motes: nat, decimals: nat): string {
    var factor := Pow10(decimals);
    Assemble(Quotient(motes, factor), motes % factor, decimals)
  }

  function Assemble(whole: nat, frac: nat, decimals: nat): string {
    if frac == 0 then Digits(whole)
    else Digits(whole) + "." + FractionText(frac, decimals)
  }

  function FractionText(frac: nat, decimals: nat): string {
    StripTrailingZeros(PadStart(Digits(frac), decimals))
  }

  /** A decimal number: mantissa / 10^scale. */
  datatype Numeral = Numeral(mantissa: nat, scale: nat)

  function PointAt(s: string, from: nat): (p: Option<nat>)
    requires from <= |s|
    ensures p.Some? ==> from <= p.value < |s| && s[p.value] == '.'
    decreases |s| - from
  {
    if from == |s| then None else if s[from] == '.' then Some(from) else PointAt(s, from + 1)
  }

  /** Reads digits, or digits, a point, and digits. */
  function Read(s: string): Option<Numeral> {
    match PointAt(s, 0)
    case None => if s != "" && AllDigits(s) then Some(Numeral(Value(s), 0)) else None
    case Some(p) => ReadParts(s[..p], s[p + 1..])
  }

  function ReadParts(whole: string, frac: string): Option<Numeral> {
    if whole != "" && frac != "" && AllDigits(whole) && AllDigits(frac)
    then Some(Numeral(Value(whole + frac), |frac|))
    else None
  }

  /** The number of base units a displayed amount stands for, if it is one. */
  function AmountShown(s: string, decimals: nat): Option<nat> {
    match Read(s)
    case None => None
    case Some(r) => if r.scale <= decimals then Some(Shift(r.mantissa, decimals - r.scale)) else None
  }

  lemma {:induction false} PointFound(whole: string, tail: string, from: nat)
    requires AllDigits(whole) && from <= |whole|
    requires tail == "" || tail[0] == '.'
    ensures PointAt(whole + tail, from) == if tail == "" then None else Some(|whole|)
    decreases |whole| - from
  {
    if from < |whole| {
      assert IsDigit((whole + tail)[from]);
      PointFound(whole, tail, from + 1);
    } else {
      assert whole + tail == whole || (whole + tail)[from] == '.';
    }
  }

  lemma StrippedExact(padded: string, frac: nat)
    requires AllDigits(padded) && Value(padded) == frac > 0
    ensures var t := StripTrailingZeros(padded);
            && 1 <= |t| <= |padded| && AllDigits(t) && t[|t| - 1] != '0'
            && Shift(Value(t), |padded| - |t|) == frac
  {
    StripScales(padded);
    ShiftIsProduct(0, |padded|);
  }

  lemma PaddedExact(frac: nat, decimals: nat)
    requires 0 < frac < Pow10(decimals)
    ensures var padded := PadStart(Digits(frac), decimals);
            AllDigits(padded) && Value(padded) == frac && |padded| == decimals
  {
    PrintThenRead(frac);
    DigitsFit(frac, decimals);
    PadKeepsValue(Digits(frac), decimals);
  }

  /** The fraction digits as printed: at most `decimals` of them, none a trailing zero, and worth frac / 10^decimals. */
  lemma FractionExact(frac: nat, decimals: nat)
    requires 0 < frac < Pow10(decimals)
    ensures var t := FractionText(frac, decimals);
            && 1 <= |t| <= decimals && AllDigits(t) && t[|t| - 1] != '0'
            && Shift(Value(t), decimals - |t|) == frac
  {
    PaddedExact(frac, decimals);
    StrippedExact(PadStart(Digits(frac), decimals), frac);
  }

  lemma PointSplits(w: string, t: string)
    requires AllDigits(w)
    ensures var s := w + "." + t; PointAt(s, 0) == Some(|w|) && s[..|w|] == w && s[|w| + 1..] == t
  {
    assert w + "." + t == w + ("." + t);
    PointFound(w, "." + t, 0);
  }

  lemma PartsRead(w: string, t: string)
    requires w != "" && t != "" && AllDigits(w) && AllDigits(t)
    ensures ReadParts(w, t) == Some(Numeral(Shift(Value(w), |t|) + Value(t), |t|))
  {
    ValueConcat(w, t);
  }

  /** Two digit strings joined by a point read back as one numeral. */
  lemma JoinedReads(w: string, t: string)
    requires w != "" && t != "" && AllDigits(w) && AllDigits(t)
    ensures PointAt(w + "." + t, 0) == Some(|w|)
    ensures Read(w + "." + t) == Some(Numeral(Shift(Value(w), |t|) + Value(t), |t|))
  {
    PointSplits(w, t);
    PartsRead(w, t);
    var s := w + "." + t;
    assert Read(s) == ReadParts(s[..|w|], s[|w| + 1..]);
  }

  lemma JoinedShows(w: string, t: string, decimals: nat)
    requires w != "" && t != "" && AllDigits(w) && AllDigits(t) && |t| <= decimals
    ensures AmountShown(w + "." + t, decimals) == Some(Shift(Value(w), decimals) + Shift(Value(t), decimals - |t|))
  {
    JoinedReads(w, t);
    ShiftAdd(Shift(Value(w), |t|), Value(t), decimals - |t|);
    ShiftTwice(Value(w), |t|, decimals - |t|);
  }

  lemma WholeShows(w: string, decimals: nat)
    requires w != "" && AllDigits(w)
    ensures PointAt(w, 0) == None && AmountShown(w, decimals) == Some(Shift(Value(w), decimals))
  {
    PointFound(w, "", 0);
    assert w + "" == w;
  }

  lemma FractionalShows(w: string, t: string, whole: nat, frac: nat, decimals: nat)
    requires w != "" && AllDigits(w) && Value(w) == whole
    requires t != "" && AllDigits(t) && |t| <= decimals && Shift(Value(t), decimals - |t|) == frac
    ensures AmountShown(w + "." + t, decimals) == Some(Shift(whole, decimals) + frac)
  {
    JoinedShows(w, t, decimals);
  }

  lemma AssembleShows(whole: nat, frac: nat, decimals: nat)
    requires frac < Pow10(decimals)
    ensures AmountShown(Assemble(whole, frac, decimals), decimals) == Some(Shift(whole, decimals) + frac)
  {
    PrintThenRead(whole);
    if frac == 0 {
      WholeShows(Digits(whole), decimals);
    } else {
      FractionExact(frac, decimals);
      FractionalShows(Digits(whole), FractionText(frac, decimals), whole, frac, decimals);
    }
  }

  /** The display reads back as exactly motes / 10^decimals. */
  lemma FormatIsExact(motes: nat, decimals: nat)
    ensures AmountShown(FormatCep18Balance(motes, decimals), decimals) == Some(motes)
  {
    var whole, frac := Quotient(motes, Pow10(decimals)), motes % Pow10(decimals);
    AssembleShows(whole, frac, decimals);
    ShiftIsProduct(whole, decimals);
  }

  /** Two different amounts never display the same. */
  lemma FormatIsInjective(m1: nat, m2: nat, decimals: nat)
    requires FormatCep18Balance(m1, decimals) == FormatCep18Balance(m2, decimals)
    ensures m1 == m2
  {
    FormatIsExact(m1, decimals);
    FormatIsExact(m2, decimals);
  }

  /** How a display looks: at most `decimals` digits after a point, no trailing and no superfluous leading zero. */
  predicate Canonical(s: string, decimals: nat) {
    && s != "" && s[0] != '.' && (s[0] == '0' ==> |s| == 1 || s[1] == '.')
    && (PointAt(s, 0).Some? ==>
          s[|s| - 1] != '0' && s[|s| - 1] != '.' && |s| - 1 - PointAt(s, 0).value <= decimals)
  }

  lemma JoinedCanonical(w: string, t: string, decimals: nat)
    requires w != "" && AllDigits(w) && (w[0] == '0' ==> w == "0")
    requires t != "" && AllDigits(t) && t[|t| - 1] != '0' && |t| <= decimals
    ensures Canonical(w + "." + t, decimals) && PointAt(w + "." + t, 0).Some?
  {
    var s := w + "." + t;
    PointSplits(w, t);
    assert s[|s| - 1] == t[|t| - 1] && IsDigit(t[|t| - 1]);
    assert s[0] == w[0] && IsDigit(w[0]);
  }

  /** The display is canonical, and has a point exactly when the amount is not whole. */
  lemma FormatIsCanonical(motes: nat, decimals: nat)
    ensures var s := FormatCep18Balance(motes, decimals);
            Canonical(s, decimals) && (PointAt(s, 0).Some? <==> motes % Pow10(decimals) != 0)
  {
    var whole, frac := Quotient(motes, Pow10(decimals)), motes % Pow10(decimals);
    NoLeadingZero(whole);
    if frac == 0 {
      WholeShows(Digits(whole), decimals);
    } else {
      FractionExact(frac, decimals);
      JoinedCanonical(Digits(whole), FractionText(frac, decimals), decimals);
    }
  }
}
