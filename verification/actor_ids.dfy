/**
 * Actor ids on the wire (serialization.ts): an id such as "a12" travels as the
 * number 12. `SerializeID` drops the first character and reads the rest the way
 * JavaScript's `parseInt(_, 10)` does; `DeserializeID` writes "a" followed by the
 * number in decimal.
 */
module ActorIds {
  import opened Wrappers

  predicate IsDigit(c: char) {
    '0' <= c <= '9'
  }

  predicate AllDigits(s: string) {
    forall i :: 0 <= i < |s| ==> IsDigit(s[i])
  }

  function DigitValue(c: char): (d: nat)
    requires IsDigit(c)
    ensures d < 10
  {
    c as int - '0' as int
  }

  function DigitChar(d: nat): (c: char)
    requires d < 10
    ensures IsDigit(c) && DigitValue(c) == d
  {
    ('0' as int + d) as char
  }

  /** The decimal numeral of `n`, without leading zeros. */
  function NatToDecimal(n: nat): (s: string)
    ensures |s| >= 1 && AllDigits(s)
    ensures s[0] == '0' <==> n == 0
    ensures n == 0 ==> s == "0"
  {
    if n < 10 then [DigitChar(n)] else NatToDecimal(n / 10) + [DigitChar(n % 10)]
  }

  /** The number a string of decimal digits denotes, most significant digit first. */
  function DecimalValue(ds: string): nat
    requires AllDigits(ds)
  {
    if |ds| == 0 then 0 else DecimalValue(ds[..|ds| - 1]) * 10 + DigitValue(ds[|ds| - 1])
  }

  /** A JavaScript number that is an integer, written in decimal by string interpolation. */
  function IntToDecimal(n: int): string {
    if n < 0 then "-" + NatToDecimal(-n) else NatToDecimal(n)
  }

  /**
   * The white space and line terminators `parseInt` skips before the number:
   * tab, vertical tab, form feed, the byte order mark, the space separators of
   * Unicode, line feed, carriage return and the two Unicode line separators.
   */
  predicate IsSpace(c: char) {
    || c == '\t' || c == '\U{000B}' || c == '\U{000C}' || c == '\U{FEFF}'
    || c == ' ' || c == '\U{00A0}' || c == '\U{1680}' || '\U{2000}' <= c <= '\U{200A}'
    || c == '\U{202F}' || c == '\U{205F}' || c == '\U{3000}'
    || c == '\n' || c == '\r' || c == '\U{2028}' || c == '\U{2029}'
  }

  /** The number of white-space characters `s` starts with. */
  function LeadingSpaces(s: string): (n: nat)
    ensures n <= |s|
    ensures forall i :: 0 <= i < n ==> IsSpace(s[i])
    ensures n < |s| ==> !IsSpace(s[n])
  {
    if |s| > 0 && IsSpace(s[0]) then 1 + LeadingSpaces(s[1..]) else 0
  }

  /** `s` without its leading white space. */
  function TrimStart(s: string): string {
    s[LeadingSpaces(s)..]
  }

  /** The number of decimal digits `s` starts with. */
  function LeadingDigits(s: string): (n: nat)
    ensures n <= |s|
    ensures forall i :: 0 <= i < n ==> IsDigit(s[i])
    ensures n < |s| ==> !IsDigit(s[n])
  {
    if |s| > 0 && IsDigit(s[0]) then 1 + LeadingDigits(s[1..]) else 0
  }

  /** The longest prefix of `s` made of decimal digits. */
  function DigitRun(s: string): (r: string)
    ensures AllDigits(r)
  {
    s[..LeadingDigits(s)]
  }

  /**
   * `parseInt(s, 10)`: leading white space skipped, an optional sign, then the
   * longest run of decimal digits; None (NaN) when that run is empty.
   */
  function ParseInt(s: string): (r: Option<int>)
    ensures r.Some? <==> |DigitRun(SignStripped(TrimStart(s)))| > 0
  {
    var t := TrimStart(s);
    var ds := DigitRun(SignStripped(t));
    if |ds| == 0 then None
    else
      var magnitude: int := DecimalValue(ds);
      Some(if |t| > 0 && t[0] == '-' then -magnitude else magnitude)
  }

  /** The text after an optional leading sign. */
  function SignStripped(t: string): string {
    if |t| > 0 && (t[0] == '-' || t[0] == '+') then t[1..] else t
  }

  /**
   * serializeID: `parseInt(actorId.substr(1), 10)`. An id of fewer than two
   * characters reads NaN; a canonical id reads as the number it carries.
   */
  function SerializeID(id: string): (r: Option<int>)
    ensures r.Some? ==> |id| >= 2
    ensures IsCanonicalId(id) ==> r == Some(IdNumber(id))
  {
    var digits := if |id| == 0 then "" else id[1..];
    assert IsCanonicalId(id) ==> ParseInt(digits) == Some(DecimalValue(digits)) by {
      if IsCanonicalId(id) {
        ParseNumeral(digits);
      }
    }
    ParseInt(digits)
  }

  /** deserializeID: the template string `a${id}`. */
  function DeserializeID(n: int): (id: string)
    ensures |id| >= 2 && id[0] == 'a'
  {
    "a" + IntToDecimal(n)
  }

  /** An id as the scene's master hands them out: "a" and a decimal numeral with no leading zero. */
  predicate IsCanonicalId(id: string) {
    && |id| >= 2
    && id[0] == 'a'
    && AllDigits(id[1..])
    && (id[1] == '0' ==> |id| == 2)
  }

  /** The number a canonical id carries. */
  function IdNumber(id: string): nat
    requires IsCanonicalId(id)
  {
    DecimalValue(id[1..])
  }

  // ---------------------------------------------------------------------------
  // Lemmas
  // ---------------------------------------------------------------------------

  /** Reading back the numeral of `n` gives `n`. */
  lemma {:induction false} DecimalRoundTrip(n: nat)
    ensures DecimalValue(NatToDecimal(n)) == n
  {
    if n >= 10 {
      var s := NatToDecimal(n);
      var front := NatToDecimal(n / 10);
      assert s == front + [DigitChar(n % 10)];
      assert s[..|s| - 1] == front;
      DecimalRoundTrip(n / 10);
    }
  }

  /** A numeral with a nonzero leading digit denotes a positive number. */
  lemma {:induction false} LeadingDigitPositive(ds: string)
    requires |ds| >= 1 && AllDigits(ds) && ds[0] != '0'
    ensures DecimalValue(ds) > 0
    decreases |ds|
  {
    if |ds| > 1 {
      var front := ds[..|ds| - 1];
      assert front[0] == ds[0];
      LeadingDigitPositive(front);
    }
  }

  /** Writing back the value of a numeral without leading zeros gives the numeral. */
  lemma {:induction false} DecimalCanonical(ds: string)
    requires |ds| >= 1 && AllDigits(ds) && (ds[0] == '0' ==> |ds| == 1)
    ensures NatToDecimal(DecimalValue(ds)) == ds
    decreases |ds|
  {
    if |ds| > 1 {
      var front := ds[..|ds| - 1];
      var last := ds[|ds| - 1];
      assert front[0] == ds[0];
      DecimalCanonical(front);
      LeadingDigitPositive(front);
      var n := DecimalValue(ds);
      assert n == DecimalValue(front) * 10 + DigitValue(last);
      assert n >= 10;
      assert n / 10 == DecimalValue(front) && n % 10 == DigitValue(last);
      assert DigitChar(DigitValue(last)) == last;
      assert ds == front + [last];
    }
  }

  /** A digit is neither white space nor a sign. */
  lemma DigitIsNotSpace(c: char)
    requires IsDigit(c)
    ensures !IsSpace(c) && c != '-' && c != '+'
  {
  }

  /** A leading digit is neither white space nor a sign, so `parseInt` keeps the whole numeral. */
  lemma DigitsAreTheRun(ds: string)
    requires |ds| >= 1 && AllDigits(ds)
    ensures TrimStart(ds) == ds
    ensures SignStripped(ds) == ds
    ensures DigitRun(ds) == ds
  {
    DigitIsNotSpace(ds[0]);
    assert LeadingSpaces(ds) == 0;
    assert LeadingDigits(ds) == |ds|;
  }

  /** `parseInt` reads a numeral as the number it denotes. */
  lemma ParseNumeral(ds: string)
    requires |ds| >= 1 && AllDigits(ds)
    ensures ParseInt(ds) == Some(DecimalValue(ds))
  {
    DigitsAreTheRun(ds);
  }

  /** `parseInt` reads a minus sign and a numeral as the negated number. */
  lemma ParseNegativeNumeral(ds: string)
    requires |ds| >= 1 && AllDigits(ds)
    ensures ParseInt("-" + ds) == Some(-(DecimalValue(ds) as int))
  {
    var minus := "-" + ds;
    assert minus[0] == '-' && minus[1..] == ds;
    ParseMinus(minus, ds);
  }

  /** A text made of a minus and then a numeral parses as the negated numeral. */
  lemma ParseMinus(t: string, ds: string)
    requires |ds| >= 1 && AllDigits(ds)
    requires |t| >= 1 && t[0] == '-' && t[1..] == ds
    ensures ParseInt(t) == Some(-(DecimalValue(ds) as int))
  {
    assert !IsSpace(t[0]);
    assert TrimStart(t) == t;
    assert SignStripped(t) == ds;
    DigitsAreTheRun(ds);
  }

  /**
   * What `parseInt` reads, for every input: after the white space `sp`, an
   * optional sign `sg` and the digit run `ds` (which `rest` does not extend),
   * the value of `ds`, negated when the sign is a minus.
   */
  lemma ParseIntValue(sp: string, sg: string, ds: string, rest: string)
    requires forall i :: 0 <= i < |sp| ==> IsSpace(sp[i])
    requires sg == "" || sg == "+" || sg == "-"
    requires |ds| >= 1 && AllDigits(ds)
    requires |rest| > 0 ==> !IsDigit(rest[0])
    ensures ParseInt(sp + sg + ds + rest) == Some(if sg == "-" then -(DecimalValue(ds) as int) else DecimalValue(ds))
  {
    var u := ds + rest;
    var t := sg + u;
    Regroup(sp, sg, ds, rest);
    SignOf(sg, u);
    SkipSpaces(sp, t);
    DigitRunOf(ds, rest);
    ParseIntStages(sp + t, t, u, ds);
  }

  /** Concatenation regrouped to the right. */
  lemma Regroup<T>(a: seq<T>, b: seq<T>, c: seq<T>, d: seq<T>)
    ensures a + b + c + d == a + (b + (c + d))
  {
  }

  /** An optional sign in front of a text starting with a digit is what `SignStripped` drops. */
  lemma SignOf(sg: string, u: string)
    requires sg == "" || sg == "+" || sg == "-"
    requires |u| > 0 && IsDigit(u[0])
    ensures SignStripped(sg + u) == u
    ensures |sg + u| > 0 && (sg + u)[0] == '-' <==> sg == "-"
    ensures |sg + u| > 0 && !IsSpace((sg + u)[0])
  {
    DigitIsNotSpace(u[0]);
    if sg == "" {
      assert sg + u == u;
    } else {
      assert (sg + u)[0] == sg[0] && (sg + u)[1..] == u;
    }
  }

  /** `parseInt` read off its three stages: trimming, the sign, the digit run. */
  lemma ParseIntStages(s: string, t: string, u: string, ds: string)
    requires TrimStart(s) == t && SignStripped(t) == u && DigitRun(u) == ds && |ds| >= 1
    ensures ParseInt(s) == Some(if |t| > 0 && t[0] == '-' then -(DecimalValue(ds) as int) else DecimalValue(ds))
  {
  }

  /** White space in front of a text that does not start with white space is exactly what `TrimStart` drops. */
  lemma {:induction false} SkipSpaces(sp: string, t: string)
    requires forall i :: 0 <= i < |sp| ==> IsSpace(sp[i])
    requires |t| > 0 && !IsSpace(t[0])
    ensures LeadingSpaces(sp + t) == |sp|
    ensures TrimStart(sp + t) == t
    decreases |sp|
  {
    if |sp| > 0 {
      assert (sp + t)[0] == sp[0];
      assert (sp + t)[1..] == sp[1..] + t;
      SkipSpaces(sp[1..], t);
    } else {
      assert sp + t == t;
    }
    assert (sp + t)[|sp|..] == t;
  }

  /** A digit run followed by a non-digit is the whole run. */
  lemma DigitRunOf(ds: string, rest: string)
    requires AllDigits(ds)
    requires |rest| > 0 ==> !IsDigit(rest[0])
    ensures DigitRun(ds + rest) == ds
  {
    var s := ds + rest;
    assert forall i :: 0 <= i < |ds| ==> s[i] == ds[i];
    assert |rest| > 0 ==> s[|ds|] == rest[0];
    assert LeadingDigits(s) == |ds|;
    assert s[..|ds|] == ds;
  }


  /** Every integer survives `serializeID(deserializeID(n))`. */
  lemma IdRoundTrip(n: int)
    ensures SerializeID(DeserializeID(n)) == Some(n)
  {
    var id := DeserializeID(n);
    var m := if n < 0 then -n else n;
    DecimalRoundTrip(m);
    ParseNumeral(NatToDecimal(m));
    ParseNegativeNumeral(NatToDecimal(m));
    assert id[1..] == IntToDecimal(n);
  }

  /** Every canonical id survives `deserializeID(serializeID(id))`. */
  lemma CanonicalIdRoundTrip(id: string)
    requires IsCanonicalId(id)
    ensures SerializeID(id) == Some(IdNumber(id))
    ensures DeserializeID(IdNumber(id)) == id
  {
    var ds := id[1..];
    DecimalCanonical(ds);
    ParseNumeral(ds);
    assert SerializeID(id) == ParseInt(ds);
    assert DeserializeID(IdNumber(id)) == "a" + ds;
    assert id == "a" + ds;
  }

  /** The ids `deserializeID` writes for nonnegative numbers are exactly the canonical ones. */
  lemma DeserializedIdIsCanonical(n: nat)
    ensures IsCanonicalId(DeserializeID(n))
    ensures IdNumber(DeserializeID(n)) == n
  {
    var id := DeserializeID(n);
    assert id[1..] == NatToDecimal(n);
    DecimalRoundTrip(n);
  }

  /** Distinct canonical ids carry distinct numbers. */
  lemma CanonicalIdsInjective(a: string, b: string)
    requires IsCanonicalId(a) && IsCanonicalId(b)
    requires IdNumber(a) == IdNumber(b)
    ensures a == b
  {
    CanonicalIdRoundTrip(a);
    CanonicalIdRoundTrip(b);
  }
}
