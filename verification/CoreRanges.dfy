/** How the launcher writes a list of cores: as "start-end" ranges separated by commas. */
module CoreRanges {
  import opened Arithmetic

  datatype CoreRange = CoreRange(start: nat, end: nat)

  /** The cores of a range. */
  function Expand(r: CoreRange): seq<nat>
    decreases r.end
  {
    if r.start > r.end then []
    else if r.start == r.end then [r.end]
    else Expand(r.(end := r.end - 1)) + [r.end]
  }

  lemma {:induction false} ExpandHolds(r: CoreRange, x: nat)
    ensures x in Expand(r) <==> r.start <= x <= r.end
    decreases r.end
  {
    if r.start < r.end {
      ExpandHolds(r.(end := r.end - 1), x);
    }
  }

  function ExpandAll(ranges: seq<CoreRange>): seq<nat> {
    if ranges == [] then [] else ExpandAll(ranges[..|ranges| - 1]) + Expand(ranges[|ranges| - 1])
  }

  /** Ranges are not empty and a core is missing between each and the next, so none could be longer. */
  ghost predicate Maximal(ranges: seq<CoreRange>) {
    && (forall i :: 0 <= i < |ranges| ==> ranges[i].start <= ranges[i].end)
    && (forall i, j {:trigger Gap(ranges[i], ranges[j])} :: 0 <= i < j < |ranges| ==> Gap(ranges[i], ranges[j]))
  }

  predicate Gap(r: CoreRange, s: CoreRange) {
    r.end + 1 < s.start
  }

  lemma ExpandSnoc(ranges: seq<CoreRange>, r: CoreRange)
    ensures ExpandAll(ranges + [r]) == ExpandAll(ranges) + Expand(r)
  {
    assert (ranges + [r])[..|ranges|] == ranges;
  }

  function Init(ranges: seq<CoreRange>): seq<CoreRange>
    requires ranges != []
  {
    ranges[..|ranges| - 1]
  }

  function Last(ranges: seq<CoreRange>): CoreRange
    requires ranges != []
  {
    ranges[|ranges| - 1]
  }

  lemma ExpandOneMore(r: CoreRange)
    requires r.start <= r.end
    ensures Expand(r.(end := r.end + 1)) == Expand(r) + [r.end + 1]
  {
  }

  lemma Joined(s: seq<nat>, t: seq<nat>, u: seq<nat>)
    ensures s + (t + u) == s + t + u
  {
  }

  lemma LengthenExpands(init: seq<CoreRange>, r: CoreRange)
    requires r.start <= r.end
    ensures ExpandAll(init + [r.(end := r.end + 1)]) == ExpandAll(init + [r]) + [r.end + 1]
  {
    ExpandSnoc(init, r);
    ExpandSnoc(init, r.(end := r.end + 1));
    ExpandOneMore(r);
    Joined(ExpandAll(init), Expand(r), [r.end + 1]);
  }

  lemma LengthenMaximal(ranges: seq<CoreRange>)
    requires ranges != [] && Maximal(ranges)
    ensures Maximal(Init(ranges) + [Last(ranges).(end := Last(ranges).end + 1)])
  {
    var longer := Init(ranges) + [Last(ranges).(end := Last(ranges).end + 1)];
    forall i, j | 0 <= i < j < |longer| ensures Gap(longer[i], longer[j]) {
      assert Gap(ranges[i], ranges[j]);
    }
  }

  /** Lengthening the last range by one appends one core. */
  lemma Lengthen(ranges: seq<CoreRange>)
    requires ranges != [] && Maximal(ranges)
    ensures var longer := Init(ranges) + [Last(ranges).(end := Last(ranges).end + 1)];
            ExpandAll(longer) == ExpandAll(ranges) + [Last(ranges).end + 1] && Maximal(longer)
  {
    var init, r := Init(ranges), Last(ranges);
    assert ranges == init + [r];
    LengthenExpands(init, r);
    LengthenMaximal(ranges);
  }

  lemma OpenMaximal(ranges: seq<CoreRange>, core: nat)
    requires Maximal(ranges) && (ranges != [] ==> Last(ranges).end + 1 < core)
    ensures Maximal(ranges + [CoreRange(core, core)])
  {
    var more := ranges + [CoreRange(core, core)];
    forall i, j | 0 <= i < j < |more| ensures Gap(more[i], more[j]) {
      assert j < |ranges| ==> Gap(ranges[i], ranges[j]);
      assert i < |ranges| - 1 ==> Gap(ranges[i], ranges[|ranges| - 1]);
    }
  }

  /** A new range for a core beyond the last one and its neighbour. */
  lemma OpenNew(ranges: seq<CoreRange>, core: nat)
    requires Maximal(ranges) && (ranges != [] ==> Last(ranges).end + 1 < core)
    ensures var more := ranges + [CoreRange(core, core)];
            ExpandAll(more) == ExpandAll(ranges) + [core] && Maximal(more)
  {
    ExpandSnoc(ranges, CoreRange(core, core));
    assert Expand(CoreRange(core, core)) == [core];
    OpenMaximal(ranges, core);
  }

  /** The ranges of an ascending list, as far as the loop has come. */
  ghost predicate Compressed(ranges: seq<CoreRange>, cores: seq<nat>) {
    && ExpandAll(ranges) == cores && Maximal(ranges) && (ranges == [] <==> cores == [])
    && (ranges != [] ==> Last(ranges).end == cores[|cores| - 1])
  }

  /** The loop body: lengthen the last range by an adjacent core, or open a new range. */
  method AppendCore(ranges: seq<CoreRange>, core: nat, ghost cores: seq<nat>) returns (coreRanges: seq<CoreRange>)
    requires Compressed(ranges, cores) && (cores != [] ==> cores[|cores| - 1] < core)
    ensures Compressed(coreRanges, cores + [core])
  {
    if |ranges| == 0 {
      OpenNew(ranges, core);
      coreRanges := ranges + [CoreRange(core, core)];
    } else if core - Last(ranges).end == 1 {
      Lengthen(ranges);
      coreRanges := Init(ranges) + [Last(ranges).(end := core)];
    } else {
      OpenNew(ranges, core);
      coreRanges := ranges + [CoreRange(core, core)];
    }
  }

  /** The loop over the cores of an instance. */
  method CompressCores(coreList: seq<nat>) returns (coreRanges: seq<CoreRange>)
    requires Ascending(coreList)
    ensures ExpandAll(coreRanges) == coreList && Maximal(coreRanges)
  {
    coreRanges := [];
    for k := 0 to |coreList|
      invariant Compressed(coreRanges, coreList[..k])
    {
      TakeNext(coreList, k);
      coreRanges := AppendCore(coreRanges, coreList[k], coreList[..k]);
    }
    assert coreList[..|coreList|] == coreList;
  }

  lemma TakeNext(s: seq<nat>, k: nat)
    requires k < |s|
    ensures s[..k + 1] == s[..k] + [s[k]]
    ensures k > 0 ==> s[..k][|s[..k]| - 1] == s[k - 1]
  {
  }

  // ---- Text ----

  predicate IsDigit(c: char) {
    '0' <= c <= '9'
  }

  function Digit(d: nat): char
    requires d < 10
  {
    '0' + d as char
  }

  function DigitValue(c: char): nat
    requires IsDigit(c)
  {
    (c - '0') as nat
  }

  function Decimal(n: nat): string {
    if n < 10 then [Digit(n)] else Decimal(n / 10) + [Digit(n % 10)]
  }

  function Render(r: CoreRange): string {
    Decimal(r.start) + "-" + Decimal(r.end)
  }

  /** Ranges separated by commas. */
  function RenderAll(ranges: seq<CoreRange>): string {
    if ranges == [] then ""
    else if |ranges| == 1 then Render(ranges[0])
    else Render(ranges[0]) + "," + RenderAll(ranges[1..])
  }

  function WithCommas(ranges: seq<CoreRange>): string {
    if ranges == [] then "" else WithCommas(ranges[..|ranges| - 1]) + Render(ranges[|ranges| - 1]) + ","
  }

  lemma {:induction false} WithCommasCons(r: CoreRange, ranges: seq<CoreRange>)
    ensures WithCommas([r] + ranges) == Render(r) + "," + WithCommas(ranges)
  {
    if ranges == [] {
      assert ([r] + ranges)[..0] == [];
    } else {
      var n := |ranges| - 1;
      WithCommasCons(r, ranges[..n]);
      assert ([r] + ranges)[..n + 1] == [r] + ranges[..n];
      var head, mid, last := Render(r) + ",", WithCommas(ranges[..n]), Render(ranges[n]);
      assert head + mid + last + "," == head + (mid + last + ",");
    }
  }

  /** The loop leaves a comma at the end; the rest is the comma-separated list. */
  lemma {:induction false} DropComma(ranges: seq<CoreRange>)
    requires ranges != []
    ensures WithCommas(ranges) == RenderAll(ranges) + ","
  {
    assert ranges == [ranges[0]] + ranges[1..];
    WithCommasCons(ranges[0], ranges[1..]);
    if |ranges| > 1 {
      DropComma(ranges[1..]);
    } else {
      assert ranges[1..] == [];
    }
  }

  /** Append each range and a comma, then cut the last character. */
  method CoresText(ranges: seq<CoreRange>) returns (text: string)
    ensures text == RenderAll(ranges)
  {
    text := "";
    for k := 0 to |ranges|
      invariant text == WithCommas(ranges[..k])
    {
      assert ranges[..k + 1][..k] == ranges[..k];
      text := text + Render(ranges[k]) + ",";
    }
    assert ranges[..|ranges|] == ranges;
    if ranges != [] { DropComma(ranges); }
    text := if text == "" then "" else text[..|text| - 1];
  }

  // ---- Reading the text back ----

  /** The number at the front, continuing from `acc`, and what follows it. */
  function ReadNumber(s: string, acc: nat): (nat, string) {
    if s != "" && IsDigit(s[0]) then ReadNumber(s[1..], acc * 10 + DigitValue(s[0])) else (acc, s)
  }

  function ReadRanges(s: string): seq<CoreRange>
    decreases |s|
  {
    var (start, r1) := ReadNumber(s, 0);
    if r1 == "" || r1[0] != '-' then []
    else
      var (end, r2) := ReadNumber(r1[1..], 0);
      ReadShorter(s, 0);
      ReadShorter(r1[1..], 0);
      [CoreRange(start, end)] + (if r2 != "" && r2[0] == ',' then ReadRanges(r2[1..]) else [])
  }

  lemma {:induction false} ReadShorter(s: string, acc: nat)
    ensures |ReadNumber(s, acc).1| <= |s|
    decreases |s|
  {
    if s != "" && IsDigit(s[0]) {
      ReadShorter(s[1..], acc * 10 + DigitValue(s[0]));
    }
  }

  function Pow10(k: nat): nat {
    if k == 0 then 1 else 10 * Pow10(k - 1)
  }

  /** Digits in front of anything are read as the number they stand for. */
  lemma {:induction false} ReadDigits(n: nat, rest: string, acc: nat)
    ensures ReadNumber(Decimal(n) + rest, acc) == ReadNumber(rest, acc * Pow10(|Decimal(n)|) + n)
    decreases n
  {
    var d := Digit(n % 10);
    if n < 10 {
      assert (Decimal(n) + rest)[1..] == rest;
    } else {
      assert Decimal(n) + rest == Decimal(n / 10) + ([d] + rest);
      ReadDigits(n / 10, [d] + rest, acc);
      assert ([d] + rest)[1..] == rest;
      Horner(acc, Pow10(|Decimal(n / 10)|), n);
    }
  }

  lemma Horner(acc: nat, p: nat, n: nat)
    ensures (acc * p + n / 10) * 10 + n % 10 == acc * (10 * p) + n
  {
    assert (acc * p) * 10 == acc * (10 * p);
  }

  lemma ReadOne(n: nat, rest: string)
    requires rest == "" || !IsDigit(rest[0])
    ensures ReadNumber(Decimal(n) + rest, 0) == (n, rest)
  {
    ReadDigits(n, rest, 0);
  }

  /** Reading what was written gives the same ranges. */
  lemma {:induction false} TextRoundTrip(ranges: seq<CoreRange>)
    ensures ReadRanges(RenderAll(ranges)) == ranges
  {
    if ranges != [] {
      var r := ranges[0];
      var rest := if |ranges| == 1 then "" else "," + RenderAll(ranges[1..]);
      var tail := "-" + (Decimal(r.end) + rest);
      assert RenderAll(ranges) == Decimal(r.start) + tail;
      ReadOne(r.start, tail);
      assert tail[1..] == Decimal(r.end) + rest;
      ReadOne(r.end, rest);
      if |ranges| > 1 {
        TextRoundTrip(ranges[1..]);
        assert rest[1..] == RenderAll(ranges[1..]);
      }
      assert ranges == [r] + ranges[1..];
    }
  }

  // ---- What the text looks like ----

  predicate AllDigits(s: string) {
    forall i :: 0 <= i < |s| ==> IsDigit(s[i])
  }

  function ValueOf(s: string): nat
    requires AllDigits(s)
  {
    if s == "" then 0 else 10 * ValueOf(s[..|s| - 1]) + DigitValue(s[|s| - 1])
  }

  /** A number in decimal, without a leading zero unless it is 0 itself. */
  predicate IsNumeral(s: string, n: nat) {
    s != "" && AllDigits(s) && ValueOf(s) == n && (|s| > 1 ==> s[0] != '0')
  }

  lemma {:induction false} DecimalIsNumeral(n: nat)
    ensures IsNumeral(Decimal(n), n) && (n > 0 ==> Decimal(n)[0] != '0')
    decreases n
  {
    if n >= 10 {
      DecimalIsNumeral(n / 10);
      assert Decimal(n)[..|Decimal(n)| - 1] == Decimal(n / 10);
    } else {
      assert Decimal(n)[..0] == "";
    }
  }

  lemma {:induction false} NumeralPositive(s: string)
    requires s != "" && AllDigits(s) && s[0] != '0'
    ensures ValueOf(s) > 0
  {
    if |s| > 1 {
      NumeralPositive(s[..|s| - 1]);
    }
  }

  /** There is only one. */
  lemma {:induction false} NumeralUnique(s: string, n: nat)
    requires IsNumeral(s, n)
    ensures s == Decimal(n)
    decreases |s|
  {
    var init, d := s[..|s| - 1], s[|s| - 1];
    assert s == init + [d];
    if |s| > 1 {
      NumeralPositive(init);
      NumeralUnique(init, n / 10);
    }
  }

  /** "start-end", and a comma between ranges. */
  ghost predicate IsText(text: string, ranges: seq<CoreRange>)
    decreases |ranges|
  {
    if ranges == [] then text == ""
    else exists a, b, more ::
      && text == a + "-" + b + more && IsNumeral(a, ranges[0].start) && IsNumeral(b, ranges[0].end)
      && if |ranges| == 1 then more == "" else more != "" && more[0] == ',' && IsText(more[1..], ranges[1..])
  }

  lemma {:induction false} RenderIsText(ranges: seq<CoreRange>)
    ensures IsText(RenderAll(ranges), ranges)
  {
    if ranges != [] {
      var a, b := Decimal(ranges[0].start), Decimal(ranges[0].end);
      var more := if |ranges| == 1 then "" else "," + RenderAll(ranges[1..]);
      DecimalIsNumeral(ranges[0].start);
      DecimalIsNumeral(ranges[0].end);
      assert RenderAll(ranges) == a + "-" + b + more;
      if |ranges| > 1 {
        RenderIsText(ranges[1..]);
        assert more[1..] == RenderAll(ranges[1..]);
      }
    }
  }

  /** From cores to text and back: the reader gets exactly the cores of the instance. */
  method InstanceCores(coreList: seq<nat>) returns (text: string)
    requires Ascending(coreList)
    ensures ExpandAll(ReadRanges(text)) == coreList && Maximal(ReadRanges(text)) && IsText(text, ReadRanges(text))
  {
    var ranges := CompressCores(coreList);
    text := CoresText(ranges);
    TextRoundTrip(ranges);
    RenderIsText(ranges);
  }
}
