/**
 * Patient identifiers of the form `EH-<year>-<number>` (`generatePatientId`). The database
 * lookup of the greatest identifier for the year is a parameter: either the identifier the
 * query returned, or the list of stored identifiers the query runs over.
 */
module PatientIds {
  import opened Text
  import opened Wrappers

  // ---------------------------------------------------------------------------
  // Decimal numerals
  // ---------------------------------------------------------------------------

  function Pow10(k: nat): (p: nat)
    ensures p >= 1
  {
    if k == 0 then 1 else 10 * Pow10(k - 1)
  }

  function DigitValue(c: char): nat
    requires IsDigit(c)
  {
    c as int - '0' as int
  }

  function DigitChar(d: nat): (c: char)
    requires d < 10
    ensures IsDigit(c) && DigitValue(c) == d
  {
    ('0' as int + d) as char
  }

  /** The number a string of decimal digits denotes; leading zeros add nothing. */
  function DecimalValue(s: String): (v: nat)
    requires AllDigits(s)
    ensures v < Pow10(|s|)
  {
    if s == [] then 0 else DecimalValue(s[..|s| - 1]) * 10 + DigitValue(s[|s| - 1])
  }

  /** `String(n)` for a non-negative integer: its decimal digits, most significant first. */
  function Decimal(n: nat): (s: String)
    ensures |s| >= 1 && AllDigits(s)
  {
    if n < 10 then [DigitChar(n)] else Decimal(n / 10) + [DigitChar(n % 10)]
  }

  /** Reading back what `Decimal` wrote gives the number. */
  lemma {:induction false} DecimalRoundTrip(n: nat)
    ensures DecimalValue(Decimal(n)) == n
  {
    if n >= 10 {
      DecimalRoundTrip(n / 10);
      var s := Decimal(n);
      assert s[..|s| - 1] == Decimal(n / 10);
    }
  }

  /** Regrouping used when a numeral is read from its first digit. */
  lemma {:induction false} FrontStep(d: nat, p: nat, rest: nat, last: nat)
    ensures (d * p + rest) * 10 + last == d * (10 * p) + (rest * 10 + last)
  {
  }

  /** The value of a numeral read from its first digit. */
  lemma {:induction false} DecimalValueFront(s: String)
    requires AllDigits(s) && s != []
    ensures DecimalValue(s) == DigitValue(s[0]) * Pow10(|s| - 1) + DecimalValue(s[1..])
    decreases |s|
  {
    if |s| == 1 {
      assert s[..0] == [] && s[1..] == [];
    } else {
      var init := s[..|s| - 1];
      var tail := s[1..];
      DecimalValueFront(init);
      assert init[0] == s[0];
      assert tail[..|tail| - 1] == init[1..];
      assert tail[|tail| - 1] == s[|s| - 1];
      assert DecimalValue(tail) == DecimalValue(init[1..]) * 10 + DigitValue(s[|s| - 1]);
      FrontStep(DigitValue(s[0]), Pow10(|s| - 2), DecimalValue(init[1..]), DigitValue(s[|s| - 1]));
    }
  }

  /** `x < y` makes `x * p + r < y * p` for any `r < p`. */
  lemma {:induction false} ScaledLess(x: nat, y: nat, p: nat, r: nat, r': nat)
    requires x < y && r < p
    ensures x * p + r < y * p + r'
  {
    assert (x + 1) * p <= y * p;
  }

  /** For numerals of the same length, code-unit order is numeric order. */
  lemma {:induction false} SameLengthOrder(a: String, b: String)
    requires |a| == |b| && AllDigits(a) && AllDigits(b)
    ensures Less(a, b) <==> DecimalValue(a) < DecimalValue(b)
    decreases |a|
  {
    if a != [] {
      DecimalValueFront(a);
      DecimalValueFront(b);
      var p := Pow10(|a| - 1);
      var ra, rb := DecimalValue(a[1..]), DecimalValue(b[1..]);
      if a[0] == b[0] {
        SameLengthOrder(a[1..], b[1..]);
      } else if a[0] < b[0] {
        ScaledLess(DigitValue(a[0]), DigitValue(b[0]), p, ra, rb);
      } else {
        ScaledLess(DigitValue(b[0]), DigitValue(a[0]), p, rb, ra);
      }
    }
  }

  /** `k` zeros. */
  function Zeros(k: nat): (z: String)
    ensures |z| == k && AllDigits(z)
  {
    seq(k, _ => '0')
  }

  /** Leading zeros do not change the value. */
  lemma {:induction false} ZerosValue(k: nat, s: String)
    requires AllDigits(s)
    ensures AllDigits(Zeros(k) + s) && DecimalValue(Zeros(k) + s) == DecimalValue(s)
    decreases k
  {
    assert AllDigits(Zeros(k) + s) by {
      forall i | 0 <= i < |Zeros(k) + s| ensures IsDigit((Zeros(k) + s)[i]) {
        if i >= k {
          assert (Zeros(k) + s)[i] == s[i - k];
        }
      }
    }
    if k > 0 {
      ZerosValue(k - 1, s);
      assert (Zeros(k) + s)[0] == '0';
      assert (Zeros(k) + s)[1..] == Zeros(k - 1) + s;
      DecimalValueFront(Zeros(k) + s);
    } else {
      assert Zeros(k) + s == s;
    }
  }

  /** `s.padStart(width, fill)` for a one-character fill: never truncates. */
  function PadStart(s: String, width: nat, fill: char): (r: String)
    ensures |r| == if |s| >= width then |s| else width
    ensures r[|r| - |s|..] == s
    ensures forall i :: 0 <= i < |r| - |s| ==> r[i] == fill
  {
    if |s| >= width then s else seq(width - |s|, _ => fill) + s
  }

  /** Padding a numeral with zeros keeps it a numeral with the same value. */
  lemma {:induction false} PadValue(s: String)
    requires AllDigits(s)
    ensures AllDigits(PadStart(s, 4, '0'))
    ensures DecimalValue(PadStart(s, 4, '0')) == DecimalValue(s)
  {
    var r := PadStart(s, 4, '0');
    var k := |r| - |s|;
    assert r[..k] == Zeros(k);
    assert r == Zeros(k) + s by {
      assert r == r[..k] + r[k..];
    }
    ZerosValue(k, s);
  }

  // ---------------------------------------------------------------------------
  // parseInt and String of a number
  // ---------------------------------------------------------------------------

  /** The result of `parseInt`: `NaN`, or an integer. */
  datatype Number = NaN | Num(value: int)

  /**
   * `parseInt(s, 10)`: leading white space is skipped, one `+` or `-` is read, then as many
   * decimal digits as follow; without a digit the result is `NaN`.
   */
  function ParseInt(s: String): (r: Number)
    ensures r.Num? ==> exists i :: 0 <= i < |s| && IsDigit(s[i])
  {
    var t := TrimStart(s);
    var signed := |t| > 0 && (t[0] == '+' || t[0] == '-');
    var u := if signed then t[1..] else t;
    var n := DigitRun(u);
    if n == 0 then NaN
    else
      assert IsDigit(u[0]) && u[0] == s[|s| - |u|];
      Num(if signed && t[0] == '-' then -(DecimalValue(u[..n]) as int) else DecimalValue(u[..n]))
  }

  /** `nextNumber = lastNumber + 1`, where `NaN + 1` is `NaN`. */
  function Increment(n: Number): Number {
    match n
    case NaN => NaN
    case Num(v) => Num(v + 1)
  }

  /** `String(n)` for the values `nextNumber` can take. */
  function NumberText(n: Number): String {
    match n
    case NaN => "NaN"
    case Num(v) => if v < 0 then "-" + Decimal(-v) else Decimal(v)
  }

  /** A non-empty numeral parses to its value. */
  lemma {:induction false} ParseNumeral(u: String)
    requires u != [] && AllDigits(u)
    ensures ParseInt(u) == Num(DecimalValue(u))
  {
    VisibleNotSpace(u[0]);
    assert TrimStart(u) == u;
    assert u[..|u|] == u;
  }

  /** A segment that starts with neither white space, a sign nor a digit parses to `NaN`. */
  lemma {:induction false} ParseJunk(u: String)
    requires u != [] && !IsSpace(u[0]) && !IsDigit(u[0]) && u[0] != '+' && u[0] != '-'
    ensures ParseInt(u) == NaN
  {
    assert TrimStart(u) == u;
  }

  /** With no `-` in the text, `parseInt` gives `NaN` or a non-negative number. */
  lemma {:induction false} ParseNoMinus(s: String)
    requires '-' !in s
    ensures ParseInt(s).NaN? || ParseInt(s).value >= 0
  {
    var t := TrimStart(s);
    if |t| > 0 {
      assert t[0] == s[|s| - |t|];
    }
  }

  // ---------------------------------------------------------------------------
  // generatePatientId
  // ---------------------------------------------------------------------------

  /** `EH-${year}-`. */
  function Prefix(year: nat): (p: String)
    ensures |p| >= 5 && p[..3] == "EH-" && p[|p| - 1] == '-'
  {
    "EH-" + Decimal(year) + "-"
  }

  /** `id.split('-').pop() || '0'`: the text after the last `-`, or `0` when that text is empty. */
  function LastSegment(id: String): String {
    var parts := Split(id, '-');
    var last := parts[|parts| - 1];
    if last == [] then "0" else last
  }

  /** The number the new identifier gets: 1 for the first of the year, else one more than the last one's number. */
  function NextNumber(lastId: Option<String>): Number {
    match lastId
    case None => Num(1)
    case Some(id) => Increment(ParseInt(LastSegment(id)))
  }

  /**
   * `generatePatientId` with the lookup done: `lastId` is the identifier the query returned
   * for the year's prefix, if any.
   */
  function GeneratePatientId(year: nat, lastId: Option<String>): String {
    Prefix(year) + PadStart(NumberText(NextNumber(lastId)), 4, '0')
  }

  /** The piece after the last separator of `a + [sep] + u` is `u` when `u` has no separator. */
  lemma {:induction false} LastPieceAfterSep(a: String, u: String, sep: char)
    requires sep !in u
    ensures Split(a + [sep] + u, sep)[|Split(a + [sep] + u, sep)| - 1] == u
    decreases |a|
  {
    if a == [] {
      assert a + [sep] + u == [sep] + u;
      SplitCons(sep, u, sep);
      SplitPrefix(u, [], sep);
      assert u + [] == u;
    } else {
      var t := a[1..] + [sep] + u;
      assert a + [sep] + u == [a[0]] + t;
      SplitCons(a[0], t, sep);
      LastPieceAfterSep(a[1..], u, sep);
      assert t[|a| - 1] == sep;
      SeparatorSplits(t, sep);
    }
  }

  /** A string holding the separator splits into at least two pieces. */
  lemma {:induction false} SeparatorSplits(t: String, sep: char)
    requires sep in t
    ensures |Split(t, sep)| >= 2
  {
    SplitCount(t, sep);
  }

  /** The number part of a generated identifier is what follows the prefix; it holds no `-`. */
  lemma {:induction false} LastSegmentOfGenerated(year: nat, u: String)
    requires u != [] && '-' !in u
    ensures LastSegment(Prefix(year) + u) == u
  {
    var d := "EH-" + Decimal(year);
    assert Prefix(year) + u == d + ['-'] + u;
    LastPieceAfterSep(d, u, '-');
  }

  /** The first identifier of a year is `EH-<year>-0001`. */
  lemma {:induction false} FirstOfYear(year: nat)
    ensures GeneratePatientId(year, None) == Prefix(year) + "0001"
  {
    assert Decimal(1) == "1";
  }

  /** The number after an identifier is one more than what `parseInt` reads from its last part. */
  lemma {:induction false} NextFromSegment(id: String, u: String, n: Number)
    requires LastSegment(id) == u && ParseInt(u) == n
    ensures NextNumber(Some(id)) == Increment(n)
  {
  }

  /** After a numeral, the next number's text is the numeral for one more. */
  lemma {:induction false} NumeralNext(id: String, u: String)
    requires u != [] && AllDigits(u) && LastSegment(id) == u
    ensures NumberText(NextNumber(Some(id))) == Decimal(DecimalValue(u) + 1)
  {
    ParseNumeral(u);
    NextFromSegment(id, u, Num(DecimalValue(u)));
  }

  /** The identifier is the prefix followed by the next number's text, padded. */
  lemma {:induction false} GeneratedFromText(year: nat, lastId: Option<String>, t: String)
    requires NumberText(NextNumber(lastId)) == t
    ensures GeneratePatientId(year, lastId) == Prefix(year) + PadStart(t, 4, '0')
  {
  }

  /** `String(NaN).padStart(4, '0')`. */
  lemma {:induction false} PadNaN()
    ensures PadStart("NaN", 4, '0') == "0NaN"
  {
    assert seq(1, _ => '0') == "0";
  }

  /** The same, for a next number `n` that is not negative. */
  lemma {:induction false} GeneratedFromNumber(year: nat, lastId: Option<String>, n: nat)
    requires NumberText(NextNumber(lastId)) == Decimal(n)
    ensures GeneratePatientId(year, lastId) == Prefix(year) + PadStart(Decimal(n), 4, '0')
  {
    GeneratedFromText(year, lastId, Decimal(n));
  }

  /** After an identifier whose last part is a numeral, the number is one more, `next`, padded to at least four digits. */
  lemma {:induction false} FollowsNumeral(year: nat, id: String, u: String, next: nat)
    requires u != [] && AllDigits(u) && LastSegment(id) == u
    requires next == DecimalValue(u) + 1
    ensures GeneratePatientId(year, Some(id)) == Prefix(year) + PadStart(Decimal(next), 4, '0')
  {
    NumeralNext(id, u);
    GeneratedFromNumber(year, Some(id), next);
  }

  /** Any last part that `parseInt` reads as `NaN` gives the suffix `0NaN`. */
  lemma {:induction false} JunkGivesNaN(year: nat, id: String)
    requires ParseInt(LastSegment(id)) == NaN
    ensures GeneratePatientId(year, Some(id)) == Prefix(year) + "0NaN"
  {
    NextFromSegment(id, LastSegment(id), NaN);
    GeneratedFromText(year, Some(id), "NaN");
    PadNaN();
  }

  /** The next number is `NaN` or at least 1: the last part of an identifier holds no `-`. */
  lemma {:induction false} NextNumberPositive(lastId: Option<String>)
    ensures NextNumber(lastId).NaN? || NextNumber(lastId).value >= 1
  {
    if lastId.Some? {
      SplitPiecesFree(lastId.value, '-');
      ParseNoMinus(LastSegment(lastId.value));
    }
  }

  /** The padded text of such a number: `0NaN`, or a numeral of at least four digits with the same value. */
  lemma {:induction false} PaddedNumber(n: Number)
    requires n.NaN? || n.value >= 1
    ensures PadStart(NumberText(n), 4, '0') == "0NaN" ||
      (|PadStart(NumberText(n), 4, '0')| >= 4 && AllDigits(PadStart(NumberText(n), 4, '0')) &&
       DecimalValue(PadStart(NumberText(n), 4, '0')) == n.value)
  {
    if n.Num? {
      DecimalRoundTrip(n.value);
      PadValue(Decimal(n.value));
    } else {
      PadNaN();
    }
  }

  /**
   * Every generated identifier is the year's prefix followed by either a numeral of at
   * least four digits whose value is at least 1, or `0NaN`.
   */
  lemma {:induction false} GeneratedForm(year: nat, lastId: Option<String>)
    ensures StartsWith(GeneratePatientId(year, lastId), Prefix(year))
    ensures GeneratePatientId(year, lastId)[|Prefix(year)|..] == "0NaN" ||
      (|GeneratePatientId(year, lastId)[|Prefix(year)|..]| >= 4 &&
       AllDigits(GeneratePatientId(year, lastId)[|Prefix(year)|..]) &&
       DecimalValue(GeneratePatientId(year, lastId)[|Prefix(year)|..]) >= 1)
  {
    var p := Prefix(year);
    var suffix := PadStart(NumberText(NextNumber(lastId)), 4, '0');
    var r := GeneratePatientId(year, lastId);
    assert r[..|p|] == p && r[|p|..] == suffix;
    NextNumberPositive(lastId);
    PaddedNumber(NextNumber(lastId));
  }

  /** No piece of a split holds the separator. */
  lemma {:induction false} SplitPiecesFree(s: String, sep: char)
    ensures forall k :: 0 <= k < |Split(s, sep)| ==> sep !in Split(s, sep)[k]
    decreases |s|
  {
    if s != [] {
      SplitPiecesFree(s[1..], sep);
    }
  }

  /** Parsing the number part of a generated identifier gives back the number it was made from. */
  lemma {:induction false} NumberRoundTrip(year: nat, n: nat)
    ensures ParseInt(LastSegment(Prefix(year) + PadStart(Decimal(n), 4, '0'))) == Num(n)
  {
    var u := PadStart(Decimal(n), 4, '0');
    PadValue(Decimal(n));
    DecimalRoundTrip(n);
    assert forall i :: 0 <= i < |u| ==> u[i] != '-';
    LastSegmentOfGenerated(year, u);
    ParseNumeral(u);
  }

  // ---------------------------------------------------------------------------
  // The lookup, and whether the new identifier is new
  // ---------------------------------------------------------------------------

  /**
   * The query `like(prefix%)`, `order('patient_id', descending)`, `limit(1)` over the stored
   * identifiers: the greatest identifier with the prefix, in code-unit order.
   */
  function HighestByText(ids: seq<String>, prefix: String): Option<String> {
    if ids == [] then None
    else
      var rest := HighestByText(ids[1..], prefix);
      if !StartsWith(ids[0], prefix) then rest
      else if rest.None? || Less(rest.value, ids[0]) then Some(ids[0])
      else rest
  }

  /** The query returns a stored identifier with the prefix that no other one exceeds, and nothing only when there is none. */
  lemma {:induction false} HighestByTextIsGreatest(ids: seq<String>, prefix: String)
    ensures HighestByText(ids, prefix).Some? ==>
      HighestByText(ids, prefix).value in ids && StartsWith(HighestByText(ids, prefix).value, prefix)
    ensures HighestByText(ids, prefix).None? ==> forall x :: x in ids ==> !StartsWith(x, prefix)
    ensures HighestByText(ids, prefix).Some? ==> forall x :: x in ids && StartsWith(x, prefix) ==>
      x == HighestByText(ids, prefix).value || Less(x, HighestByText(ids, prefix).value)
  {
    if ids != [] {
      var rest := HighestByText(ids[1..], prefix);
      HighestByTextIsGreatest(ids[1..], prefix);
      assert ids == [ids[0]] + ids[1..];
      if StartsWith(ids[0], prefix) && rest.Some? {
        if Less(rest.value, ids[0]) {
          forall x | x in ids[1..] && StartsWith(x, prefix) ensures Less(x, ids[0]) {
            if x != rest.value {
              LessTransitive(x, rest.value, ids[0]);
            }
          }
        } else if ids[0] != rest.value {
          LessTotal(ids[0], rest.value);
        }
      }
    }
  }

  /** `generatePatientId` against a store of identifiers: the query as written, then the formatting. */
  function GenerateFromStore(year: nat, ids: seq<String>): String {
    GeneratePatientId(year, HighestByText(ids, Prefix(year)))
  }

  /** Every identifier of the year is the prefix followed by exactly four digits. */
  predicate FourDigitNumbers(ids: seq<String>, prefix: String) {
    forall x :: x in ids && StartsWith(x, prefix) ==> |x| == |prefix| + 4 && AllDigits(x[|prefix|..])
  }

  /** An identifier is the prefix followed by its number part. */
  lemma {:induction false} PrefixAndRest(x: String, prefix: String)
    requires StartsWith(x, prefix)
    ensures x == prefix + x[|prefix|..]
  {
    assert x == x[..|prefix|] + x[|prefix|..];
  }

  /** The identifier generated after `h` is the prefix and a numeral worth one more than `h`'s. */
  lemma {:induction false} AfterFourDigits(year: nat, h: String)
    requires StartsWith(h, Prefix(year)) && |h| == |Prefix(year)| + 4 && AllDigits(h[|Prefix(year)|..])
    ensures StartsWith(GeneratePatientId(year, Some(h)), Prefix(year))
    ensures AllDigits(GeneratePatientId(year, Some(h))[|Prefix(year)|..])
    ensures DecimalValue(GeneratePatientId(year, Some(h))[|Prefix(year)|..]) == DecimalValue(h[|Prefix(year)|..]) + 1
  {
    var p := Prefix(year);
    var dh := h[|p|..];
    PrefixAndRest(h, p);
    assert forall i :: 0 <= i < |dh| ==> dh[i] != '-';
    LastSegmentOfGenerated(year, dh);
    NumeralNext(h, dh);
    var n := DecimalValue(dh) + 1;
    GeneratedFromNumber(year, Some(h), n);
    DecimalRoundTrip(n);
    PadValue(Decimal(n));
    var r := GeneratePatientId(year, Some(h));
    assert r[..|p|] == p && r[|p|..] == PadStart(Decimal(n), 4, '0');
  }

  /**
   * The comment's promise of a unique identifier holds while every identifier of the year
   * has exactly four digits: then code-unit order is numeric order and the query finds the
   * greatest number.
   */
  lemma {:induction false} UniqueWhileFourDigits(year: nat, ids: seq<String>)
    requires FourDigitNumbers(ids, Prefix(year))
    ensures GenerateFromStore(year, ids) !in ids
  {
    var p := Prefix(year);
    var r := GenerateFromStore(year, ids);
    HighestByTextIsGreatest(ids, p);
    GeneratedForm(year, HighestByText(ids, p));
    match HighestByText(ids, p)
    case None =>
      forall x | x in ids ensures x != r {
        assert !StartsWith(x, p);
      }
    case Some(h) =>
      var dh := h[|p|..];
      AfterFourDigits(year, h);
      forall x | x in ids ensures x != r {
        if StartsWith(x, p) {
          var dx := x[|p|..];
          PrefixAndRest(x, p);
          PrefixAndRest(h, p);
          LessCommonPrefix(p, dx, dh);
          SameLengthOrder(dx, dh);
          assert DecimalValue(dx) <= DecimalValue(dh);
          assert dx != r[|p|..];
        }
      }
  }

  /** After the prefix and a numeral comes the prefix and the numeral for one more, `next`. */
  lemma {:induction false} AfterNumeral(year: nat, u: String, next: nat)
    requires u != [] && AllDigits(u) && next == DecimalValue(u) + 1
    ensures GeneratePatientId(year, Some(Prefix(year) + u)) == Prefix(year) + PadStart(Decimal(next), 4, '0')
  {
    assert forall i :: 0 <= i < |u| ==> u[i] != '-';
    LastSegmentOfGenerated(year, u);
    FollowsNumeral(year, Prefix(year) + u, u, next);
  }

  lemma {:induction false} FourAndFiveDigits()
    ensures Decimal(9998) == "9998" && Decimal(9999) == "9999" && Decimal(10000) == "10000"
    ensures DecimalValue("9998") == 9998 && DecimalValue("9999") == 9999
  {
    assert Decimal(9) == "9" && Decimal(99) == "99" && Decimal(999) == "999";
    DecimalRoundTrip(9998);
    DecimalRoundTrip(9999);
  }

  /** The generator itself goes from `…-9998` to `…-9999` to `…-10000`. */
  lemma {:induction false} PastFourDigits(year: nat)
    ensures GeneratePatientId(year, Some(Prefix(year) + "9998")) == Prefix(year) + "9999"
    ensures GeneratePatientId(year, Some(Prefix(year) + "9999")) == Prefix(year) + "10000"
  {
    FourAndFiveDigits();
    AfterNumeral(year, "9998", 9999);
    AfterNumeral(year, "9999", 10000);
  }

  /**
   * Once a year reaches `…-10000` the promise fails: `EH-<year>-9999` sorts after
   * `EH-<year>-10000`, so the query returns the former and the identifier generated is the
   * latter again, which is already stored.
   */
  lemma {:induction false} StringOrderCollision(year: nat)
    ensures HighestByText([Prefix(year) + "9999", Prefix(year) + "10000"], Prefix(year)) == Some(Prefix(year) + "9999")
    ensures GenerateFromStore(year, [Prefix(year) + "9999", Prefix(year) + "10000"]) == Prefix(year) + "10000"
  {
    var p := Prefix(year);
    var a, b := p + "9999", p + "10000";
    assert a[..|p|] == p && b[..|p|] == p;
    LessCommonPrefix(p, "10000", "9999");
    assert Less("10000", "9999");
    assert HighestByText([b][1..], p) == None;
    assert HighestByText([b], p) == Some(b);
    assert [a, b][1..] == [b];
    PastFourDigits(year);
  }

  /** The identifier is the prefix followed by a non-empty numeral. */
  predicate NumberedWith(id: String, prefix: String) {
    StartsWith(id, prefix) && |id| > |prefix| && AllDigits(id[|prefix|..])
  }

  /** The corrected lookup: the greatest number among the year's identifiers, compared as numbers. */
  function HighestNumber(ids: seq<String>, prefix: String): Option<nat> {
    if ids == [] then None
    else
      var rest := HighestNumber(ids[1..], prefix);
      if !NumberedWith(ids[0], prefix) then rest
      else
        var v := DecimalValue(ids[0][|prefix|..]);
        if rest.None? || rest.value < v then Some(v) else rest
  }

  /** The corrected lookup bounds every number of the year and is one of them. */
  lemma {:induction false} HighestNumberIsGreatest(ids: seq<String>, prefix: String)
    ensures forall x :: x in ids && NumberedWith(x, prefix) ==>
      HighestNumber(ids, prefix).Some? && DecimalValue(x[|prefix|..]) <= HighestNumber(ids, prefix).value
    ensures HighestNumber(ids, prefix).Some? ==>
      (exists x :: x in ids && NumberedWith(x, prefix) && DecimalValue(x[|prefix|..]) == HighestNumber(ids, prefix).value)
  {
    if ids != [] {
      HighestNumberIsGreatest(ids[1..], prefix);
      assert ids == [ids[0]] + ids[1..];
      assert ids[0] in ids;
    }
  }

  /** One more than the greatest number found, or 1 when there is none. */
  function Successor(last: Option<nat>): nat {
    if last.None? then 1 else last.value + 1
  }

  /** The corrected `generatePatientId`: one more than the greatest number of the year, padded as before. */
  function FreshPatientId(year: nat, ids: seq<String>): String {
    Prefix(year) + PadStart(Decimal(Successor(HighestNumber(ids, Prefix(year)))), 4, '0')
  }

  /** The corrected identifier is never one already stored, whatever the stored identifiers look like. */
  lemma {:induction false} FreshIdIsNew(year: nat, ids: seq<String>)
    ensures FreshPatientId(year, ids) !in ids
  {
    var p := Prefix(year);
    var last := HighestNumber(ids, p);
    var m := Successor(last);
    var suffix := PadStart(Decimal(m), 4, '0');
    var r := FreshPatientId(year, ids);
    assert r == p + suffix;
    assert r[..|p|] == p && r[|p|..] == suffix;
    DecimalRoundTrip(m);
    PadValue(Decimal(m));
    HighestNumberIsGreatest(ids, p);
    forall x | x in ids ensures x != r {
      if NumberedWith(x, p) {
        assert DecimalValue(x[|p|..]) < DecimalValue(suffix);
        assert x[|p|..] != r[|p|..];
      } else if StartsWith(x, p) && |x| > |p| {
        assert x[|p|..] != suffix;
      } else if StartsWith(x, p) {
        assert |x| < |r|;
      }
    }
  }

  /** While every number has four digits, the text query finds the greatest number. */
  lemma {:induction false} TextQueryFindsGreatest(ids: seq<String>, prefix: String, h: String)
    requires FourDigitNumbers(ids, prefix) && HighestByText(ids, prefix) == Some(h)
    ensures StartsWith(h, prefix) && NumberedWith(h, prefix)
    ensures HighestNumber(ids, prefix) == Some(DecimalValue(h[|prefix|..]))
  {
    HighestByTextIsGreatest(ids, prefix);
    HighestNumberIsGreatest(ids, prefix);
    var dh := h[|prefix|..];
    var x :| x in ids && NumberedWith(x, prefix) && DecimalValue(x[|prefix|..]) == HighestNumber(ids, prefix).value;
    PrefixAndRest(x, prefix);
    PrefixAndRest(h, prefix);
    LessCommonPrefix(prefix, x[|prefix|..], dh);
    SameLengthOrder(x[|prefix|..], dh);
  }

  /** While every number has four digits the correction changes nothing: both lookups pick the same number. */
  lemma {:induction false} FreshAgreesWhileFourDigits(year: nat, ids: seq<String>)
    requires FourDigitNumbers(ids, Prefix(year))
    ensures FreshPatientId(year, ids) == GenerateFromStore(year, ids)
  {
    var p := Prefix(year);
    match HighestByText(ids, p)
    case None =>
      HighestByTextIsGreatest(ids, p);
      HighestNumberIsGreatest(ids, p);
      assert HighestNumber(ids, p).None?;
      assert Decimal(1) == "1";
    case Some(h) =>
      TextQueryFindsGreatest(ids, p, h);
      var dh := h[|p|..];
      PrefixAndRest(h, p);
      var next := DecimalValue(dh) + 1;
      AfterNumeral(year, dh, next);
      assert GenerateFromStore(year, ids) == GeneratePatientId(year, Some(p + dh));
      FreshAfter(year, ids, DecimalValue(dh), next);
  }

  lemma {:induction false} FreshAfter(year: nat, ids: seq<String>, highest: nat, next: nat)
    requires HighestNumber(ids, Prefix(year)) == Some(highest) && next == highest + 1
    ensures FreshPatientId(year, ids) == Prefix(year) + PadStart(Decimal(next), 4, '0')
  {
  }
}
