/**
 * A claim on the fabric: an axis-aligned rectangle of unit cells with an id,
 * its bottom-left corner (x, y) and its width and height, all `u32`. This
 * module gives its geometry (inclusive top-right corner, emptiness, the cells
 * it covers in row order) and its text form `#<id> @ <x>,<y>: <width>x<height>`.
 */
module Claims {
  import opened Wrappers

  const U32_MAX: nat := 0xFFFF_FFFF

  /** Rust's `u32`. */
  type U32 = n: nat | n <= U32_MAX

  datatype Rect = Rect(id: U32, x: U32, y: U32, width: U32, height: U32)

  /** A unit cell, as the pair (x, y). */
  type Cell = (nat, nat)

  /**
   * The unchecked `u32` additions `x + width` and `y + height` of `top_right`
   * do not overflow.
   */
  predicate Fits(r: Rect) {
    r.x + r.width <= U32_MAX && r.y + r.height <= U32_MAX
  }

  function Min(a: nat, b: nat): nat {
    if a <= b then a else b
  }

  /** `u32::saturating_sub`. */
  function SaturatingSub(a: nat, b: nat): nat {
    if a >= b then a - b else 0
  }

  // ---------------------------------------------------------------------
  // Geometry
  // ---------------------------------------------------------------------

  /**
   * The inclusive top-right cell. A zero width (height) collapses the x (y)
   * coordinate onto the corner instead of stepping one below it.
   */
  function TopRight(r: Rect): (corner: (U32, U32))
    requires Fits(r)
    ensures corner.0 == if r.width == 0 then r.x else r.x + r.width - 1
    ensures corner.1 == if r.height == 0 then r.y else r.y + r.height - 1
  {
    (SaturatingSub(r.x + r.width, Min(1, r.width)),
     SaturatingSub(r.y + r.height, Min(1, r.height)))
  }

  predicate IsEmpty(r: Rect) {
    r.width == 0 || r.height == 0
  }

  /** The half-open cell ranges [x, x + width) and [y, y + height) contain `c`. */
  predicate Covers(r: Rect, c: Cell) {
    r.x <= c.0 < r.x + r.width && r.y <= c.1 < r.y + r.height
  }

  /** An empty claim covers no cell at all, and a non-empty one covers its corner cell (x, y). */
  lemma EmptyCoversNothing(r: Rect)
    ensures IsEmpty(r) <==> forall c: Cell :: !Covers(r, c)
    ensures !IsEmpty(r) ==> Covers(r, (r.x, r.y))
  {
    if !IsEmpty(r) {
      assert Covers(r, (r.x, r.y));
    }
  }

  /** `lo ..= hi`. */
  function InclusiveRange(lo: nat, hi: nat): seq<nat> {
    seq(if lo <= hi then hi - lo + 1 else 0, k requires 0 <= k => lo + k)
  }

  /** One row of `iproduct!`: every x of `xs` paired with the fixed `y`. */
  function Row(xs: seq<nat>, y: nat): seq<Cell> {
    seq(|xs|, k requires 0 <= k < |xs| => (xs[k], y))
  }

  /** `iproduct!(ys, xs)` mapped to (x, y): y in the outer loop, x in the inner one. */
  function Product(ys: seq<nat>, xs: seq<nat>): seq<Cell> {
    if ys == [] then [] else Row(xs, ys[0]) + Product(ys[1..], xs)
  }

  /** `iter_coords`: the product of the two inclusive ranges, filtered away when the rect is empty. */
  function IterCoords(r: Rect): seq<Cell>
    requires Fits(r)
  {
    var (maxX, maxY) := TopRight(r);
    if IsEmpty(r) then [] else Product(InclusiveRange(r.y, maxY), InclusiveRange(r.x, maxX))
  }

  /** Row-major order: by y first, then by x. */
  predicate RowMajorBefore(p: Cell, q: Cell) {
    p.1 < q.1 || (p.1 == q.1 && p.0 < q.0)
  }

  predicate StrictlyIncreasing(s: seq<nat>) {
    forall i, j :: 0 <= i < j < |s| ==> s[i] < s[j]
  }

  lemma InclusiveRangeFacts(lo: nat, hi: nat)
    ensures StrictlyIncreasing(InclusiveRange(lo, hi))
    ensures forall v: nat :: v in InclusiveRange(lo, hi) <==> lo <= v <= hi
  {
    var s := InclusiveRange(lo, hi);
    forall v: nat | lo <= v <= hi
      ensures v in s
    {
      assert s[v - lo] == v;
    }
  }

  lemma {:induction false} ProductMembers(ys: seq<nat>, xs: seq<nat>, c: Cell)
    ensures c in Product(ys, xs) <==> c.0 in xs && c.1 in ys
  {
    if ys != [] {
      ProductMembers(ys[1..], xs, c);
      var row := Row(xs, ys[0]);
      if c.0 in xs && c.1 == ys[0] {
        var k :| 0 <= k < |xs| && xs[k] == c.0;
        assert row[k] == c;
      }
      assert ys == [ys[0]] + ys[1..];
    }
  }

  lemma {:induction false} ProductLength(ys: seq<nat>, xs: seq<nat>)
    ensures |Product(ys, xs)| == |ys| * |xs|
  {
    if ys != [] {
      ProductLength(ys[1..], xs);
      assert |ys| * |xs| == |xs| + (|ys| - 1) * |xs|;
    }
  }

  lemma {:induction false} ProductRowMajor(ys: seq<nat>, xs: seq<nat>)
    requires StrictlyIncreasing(ys) && StrictlyIncreasing(xs)
    ensures var p := Product(ys, xs);
      forall i, j :: 0 <= i < j < |p| ==> RowMajorBefore(p[i], p[j])
  {
    if ys != [] {
      var row, rest := Row(xs, ys[0]), Product(ys[1..], xs);
      ProductRowMajor(ys[1..], xs);
      var p := row + rest;
      forall i, j | 0 <= i < j < |p|
        ensures RowMajorBefore(p[i], p[j])
      {
        if j < |row| {
          assert p[i] == (xs[i], ys[0]) && p[j] == (xs[j], ys[0]);
        } else if i >= |row| {
          assert p[i] == rest[i - |row|] && p[j] == rest[j - |row|];
        } else {
          var q := rest[j - |row|];
          ProductMembers(ys[1..], xs, q);
          var k :| 0 <= k < |ys[1..]| && ys[1..][k] == q.1;
          assert ys[0] < ys[k + 1];
          assert p[i] == (xs[i], ys[0]) && p[j] == q;
        }
      }
    }
  }

  /** `iter_coords` yields exactly the cells of [x, x + width) × [y, y + height). */
  lemma IterCoordsCells(r: Rect, c: Cell)
    requires Fits(r)
    ensures c in IterCoords(r) <==> Covers(r, c)
  {
    if !IsEmpty(r) {
      var (maxX, maxY) := TopRight(r);
      InclusiveRangeFacts(r.x, maxX);
      InclusiveRangeFacts(r.y, maxY);
      ProductMembers(InclusiveRange(r.y, maxY), InclusiveRange(r.x, maxX), c);
    }
  }

  /**
   * `iter_coords` yields width * height cells, none when the rect is empty,
   * in strictly increasing row-major order (so each cell once).
   */
  lemma IterCoordsShape(r: Rect)
    requires Fits(r)
    ensures |IterCoords(r)| == r.width * r.height
    ensures IterCoords(r) == [] <==> IsEmpty(r)
    ensures var cs := IterCoords(r);
      forall i, j :: 0 <= i < j < |cs| ==> RowMajorBefore(cs[i], cs[j])
  {
    if !IsEmpty(r) {
      var (maxX, maxY) := TopRight(r);
      InclusiveRangeFacts(r.x, maxX);
      InclusiveRangeFacts(r.y, maxY);
      ProductLength(InclusiveRange(r.y, maxY), InclusiveRange(r.x, maxX));
      ProductRowMajor(InclusiveRange(r.y, maxY), InclusiveRange(r.x, maxX));
      assert r.width * r.height > 0;
    }
  }

  /** The geometry examples of the source's own tests. */
  lemma GeometryExamples()
    ensures TopRight(Rect(123, 3, 2, 5, 4)) == (7, 5)
    ensures TopRight(Rect(1, 0, 0, 0, 0)) == (0, 0)
    ensures TopRight(Rect(1, 10, 10, 0, 0)) == (10, 10)
    ensures IterCoords(Rect(123, 5, 7, 3, 2)) == [(5, 7), (6, 7), (7, 7), (5, 8), (6, 8), (7, 8)]
    ensures IsEmpty(Rect(1, 5, 7, 0, 0)) && IterCoords(Rect(1, 5, 7, 0, 0)) == []
  {
    var r := Rect(123, 5, 7, 3, 2);
    assert InclusiveRange(5, 7) == [5, 6, 7];
    assert InclusiveRange(7, 8) == [7, 8];
    assert Product([8], [5, 6, 7]) == [(5, 8), (6, 8), (7, 8)];
  }

  // ---------------------------------------------------------------------
  // Text form
  // ---------------------------------------------------------------------

  predicate IsDigit(c: char) {
    '0' <= c <= '9'
  }

  predicate AllDigits(s: string) {
    forall i :: 0 <= i < |s| ==> IsDigit(s[i])
  }

  /** A non-empty run of decimal digits: what one `\d+` group captures. */
  predicate IsNumeral(s: string) {
    |s| > 0 && AllDigits(s)
  }

  /** Length of the longest prefix of `t` made of digits (a greedy `\d*`). */
  function DigitRun(t: string): (n: nat)
    ensures n <= |t| && AllDigits(t[..n])
    ensures n == |t| || !IsDigit(t[n])
  {
    if t != [] && IsDigit(t[0]) then 1 + DigitRun(t[1..]) else 0
  }

  /**
   * `\d+` followed by the literal `sep`: the digits and the text after `sep`.
   * Every separator of the claim pattern starts with a non-digit, so `\d+`
   * must take the whole digit run; after the last group (`sep` empty) the
   * greedy `\d+` takes it too.
   */
  function Field(t: string, sep: string): (r: Option<(string, string)>)
    ensures r.Some? ==> IsNumeral(r.value.0)
  {
    var n := DigitRun(t);
    if n > 0 && |sep| <= |t| - n && t[n..n + |sep|] == sep
    then Some((t[..n], t[n + |sep|..]))
    else None
  }

  /** A field's digits are the whole digit run at the start of `t`, followed by `sep` and then the rest. */
  lemma FieldSound(t: string, sep: string)
    ensures Field(t, sep).Some? ==>
      var (d, rest) := Field(t, sep).value;
      t == d + (sep + rest) && (|d| == |t| || !IsDigit(t[|d|]))
  {
    var n := DigitRun(t);
    if Field(t, sep).Some? {
      assert t == t[..n] + (t[n..n + |sep|] + t[n + |sep|..]);
    }
  }

  /** The five groups `id`, `x`, `y`, `width`, `height` of one match. */
  datatype Captures = Captures(id: string, x: string, y: string, width: string, height: string)

  predicate WellFormed(c: Captures) {
    IsNumeral(c.id) && IsNumeral(c.x) && IsNumeral(c.y) && IsNumeral(c.width) && IsNumeral(c.height)
  }

  /** `#(\d+) @ (\d+),(\d+): (\d+)x(\d+)` matched at the very start of `t`. */
  function MatchHere(t: string): (r: Option<Captures>)
    ensures r.Some? ==> WellFormed(r.value)
  {
    if t == [] || t[0] != '#' then None
    else
      var id :- Field(t[1..], " @ ");
      var x :- Field(id.1, ",");
      var y :- Field(x.1, ": ");
      var width :- Field(y.1, "x");
      var height :- Field(width.1, "");
      Some(Captures(id.0, x.0, y.0, width.0, height.0))
  }

  /** The unanchored search of `Regex::captures`: the match that starts leftmost. */
  function FindMatch(s: string): (r: Option<Captures>)
    ensures r.Some? ==> WellFormed(r.value)
  {
    if s == [] then None
    else if MatchHere(s).Some? then MatchHere(s)
    else FindMatch(s[1..])
  }

  /** The two ways parsing fails. */
  datatype ParseRectError =
    | MalformedString(text: string)  // no match of the claim pattern
    | ParseInt                       // a captured field does not fit a u32

  function DigitValue(c: char): nat
    requires IsDigit(c)
  {
    c as int - '0' as int
  }

  function DigitChar(d: nat): char
    requires d < 10
  {
    ('0' as int + d) as char
  }

  /** The value of a decimal numeral (leading zeros allowed). */
  function DigitsValue(ds: string): nat
    requires AllDigits(ds)
  {
    if ds == [] then 0 else DigitsValue(ds[..|ds| - 1]) * 10 + DigitValue(ds[|ds| - 1])
  }

  /** `str::parse::<u32>` of a digit string: its value, or the overflow error. */
  function ParseU32(ds: string): (r: Result<U32, ParseRectError>)
    requires IsNumeral(ds)
    ensures r.Ok? <==> DigitsValue(ds) <= U32_MAX
    ensures r.Err? ==> r.error == ParseInt
  {
    var v := DigitsValue(ds);
    if v <= U32_MAX then Ok(v) else Err(ParseInt)
  }

  /**
   * `Rect::from_str`: the leftmost match of the claim pattern, its fields
   * parsed in the order id, x, y, width, height.
   */
  function Parse(s: string): (r: Result<Rect, ParseRectError>)
    ensures r == Err(MalformedString(s)) <==> FindMatch(s).None?
  {
    match FindMatch(s)
    case None => Err(MalformedString(s))
    case Some(caps) =>
      var id :- ParseU32(caps.id);
      var x :- ParseU32(caps.x);
      var y :- ParseU32(caps.y);
      var width :- ParseU32(caps.width);
      var height :- ParseU32(caps.height);
      Ok(Rect(id, x, y, width, height))
  }

  /** The decimal numeral of `n`, as `Display` writes a `u32`: no leading zeros. */
  function Decimal(n: nat): (ds: string)
    ensures IsNumeral(ds) && DigitsValue(ds) == n
    ensures ds[0] == '0' ==> n == 0
  {
    if n < 10 then [DigitChar(n)]
    else
      var prefix := Decimal(n / 10);
      var ds := prefix + [DigitChar(n % 10)];
      assert ds[..|ds| - 1] == prefix;
      ds
  }

  /** Parsing the decimal text of any `u32` gives the value back. */
  lemma ParseU32Decimal(n: U32)
    ensures ParseU32(Decimal(n)) == Ok(n)
  {
  }

  /** Leading zeros do not change the parsed value. */
  lemma {:induction false} LeadingZero(ds: string)
    requires IsNumeral(ds)
    ensures ParseU32("0" + ds) == ParseU32(ds)
    decreases |ds|
  {
    var n := |ds| - 1;
    assert ("0" + ds)[..|"0" + ds| - 1] == "0" + ds[..n];
    assert ("0" + ds)[|"0" + ds| - 1] == ds[n];
    if n == 0 {
      assert DigitsValue("0") == 0;
      assert ds[..n] == [];
      assert "0" + ds[..n] == "0";
    } else {
      LeadingZero(ds[..n]);
    }
  }

  /** The claim text built from five numerals. */
  function Shape(id: string, x: string, y: string, width: string, height: string): string {
    "#" + (id + (" @ " + (x + ("," + (y + (": " + (width + ("x" + height))))))))
  }

  /** `Display for Rect`. */
  function Display(r: Rect): string {
    Shape(Decimal(r.id), Decimal(r.x), Decimal(r.y), Decimal(r.width), Decimal(r.height))
  }

  lemma {:induction false} DigitRunOf(d: string, t: string)
    requires AllDigits(d)
    requires t == [] || !IsDigit(t[0])
    ensures DigitRun(d + t) == |d|
  {
    if d != [] {
      assert (d + t)[1..] == d[1..] + t;
      DigitRunOf(d[1..], t);
    }
  }

  lemma FieldOf(d: string, sep: string, rest: string)
    requires IsNumeral(d)
    requires sep != [] && !IsDigit(sep[0])
    ensures Field(d + (sep + rest), sep) == Some((d, rest))
  {
    var t := d + (sep + rest);
    DigitRunOf(d, sep + rest);
    assert t[|d|..|d| + |sep|] == sep;
    assert t[..|d|] == d;
    assert t[|d| + |sep|..] == rest;
  }

  lemma LastFieldOf(d: string, rest: string)
    requires IsNumeral(d)
    requires rest == [] || !IsDigit(rest[0])
    ensures Field(d + rest, "") == Some((d, rest))
  {
    var t := d + rest;
    DigitRunOf(d, rest);
    assert t[..|d|] == d && t[|d|..] == rest;
  }

  /** The claim text built from the captures `c`. */
  function ShapeOf(c: Captures): string {
    Shape(c.id, c.x, c.y, c.width, c.height)
  }

  /**
   * The text `t` starts with the claim text of `c`, and what follows it is
   * not a digit (so the greedy last group could not have taken more).
   */
  predicate ClaimAt(t: string, c: Captures) {
    var sh := ShapeOf(c);
    sh <= t && (|sh| == |t| || !IsDigit(t[|sh|]))
  }

  lemma ShapeAppend(c: Captures, rest: string)
    ensures ShapeOf(c) + rest ==
      "#" + (c.id + (" @ " + (c.x + ("," + (c.y + (": " + (c.width + ("x" + (c.height + rest)))))))))
  {
  }

  /** Text assembled field by field, as `MatchHere` takes it apart, is the claim text of its captures. */
  lemma AssembleClaim(t: string, id: string, x: string, y: string, width: string, height: string,
                      t2: string, t3: string, t4: string, t5: string, rest: string)
    requires t != [] && t[0] == '#' && t[1..] == id + (" @ " + t2) && t2 == x + ("," + t3)
    requires t3 == y + (": " + t4) && t4 == width + ("x" + t5) && t5 == height + ("" + rest)
    requires |height| == |t5| || !IsDigit(t5[|height|])
    ensures ClaimAt(t, Captures(id, x, y, width, height))
  {
    var c := Captures(id, x, y, width, height);
    assert t == "#" + t[1..];
    assert "" + rest == rest;
    ShapeAppend(c, rest);
    assert t == ShapeOf(c) + rest;
    assert ShapeOf(c) == t[..|ShapeOf(c)|];
    if |ShapeOf(c)| < |t| {
      assert t[|ShapeOf(c)|] == rest[0] == t5[|height|];
    }
  }

  /** A match at the start of `t` is the claim text of its captures, followed by a non-digit or the end. */
  lemma MatchHereSound(t: string)
    ensures MatchHere(t).Some? ==> ClaimAt(t, MatchHere(t).value)
  {
    if MatchHere(t).Some? {
      var id := Field(t[1..], " @ ").value;
      var x := Field(id.1, ",").value;
      var y := Field(x.1, ": ").value;
      var width := Field(y.1, "x").value;
      var height := Field(width.1, "").value;
      FieldSound(t[1..], " @ ");
      FieldSound(id.1, ",");
      FieldSound(x.1, ": ");
      FieldSound(y.1, "x");
      FieldSound(width.1, "");
      AssembleClaim(t, id.0, x.0, y.0, width.0, height.0, id.1, x.1, y.1, width.1, height.1);
    }
  }

  /** Conversely, text that starts with the claim text of five numerals matches there, with those captures. */
  lemma MatchHereComplete(t: string, c: Captures)
    requires WellFormed(c) && ClaimAt(t, c)
    ensures MatchHere(t) == Some(c)
  {
    var sh := ShapeOf(c);
    var rest := t[|sh|..];
    assert t == sh + rest;
    var t5 := c.height + rest;
    var t4 := c.width + ("x" + t5);
    var t3 := c.y + (": " + t4);
    var t2 := c.x + ("," + t3);
    var t1 := c.id + (" @ " + t2);
    ShapeAppend(c, rest);
    assert t == "#" + t1;
    assert t[1..] == t1;
    FieldOf(c.id, " @ ", t2);
    FieldOf(c.x, ",", t3);
    FieldOf(c.y, ": ", t4);
    FieldOf(c.width, "x", t5);
    LastFieldOf(c.height, rest);
  }

  /** The search finds nothing exactly when the pattern matches at no position of the text. */
  lemma {:induction false} FindMatchNone(s: string)
    ensures FindMatch(s).None? <==> forall i :: 0 <= i < |s| ==> MatchHere(s[i..]).None?
  {
    if s != [] {
      FindMatchNone(s[1..]);
      assert s[0..] == s;
      forall i | 1 <= i < |s|
        ensures s[1..][i - 1..] == s[i..]
      {
      }
    }
  }

  /** A match that the search finds is the match at the leftmost position where the pattern matches. */
  lemma {:induction false} FindMatchLeftmost(s: string)
    requires FindMatch(s).Some?
    ensures exists i :: 0 <= i < |s| && MatchHere(s[i..]) == FindMatch(s) && (forall k :: 0 <= k < i ==> MatchHere(s[k..]).None?)
  {
    assert s[0..] == s;
    if MatchHere(s).None? {
      FindMatchLeftmost(s[1..]);
      var j :| 0 <= j < |s| - 1 && MatchHere(s[1..][j..]) == FindMatch(s[1..])
        && forall k :: 0 <= k < j ==> MatchHere(s[1..][k..]).None?;
      assert s[1..][j..] == s[j + 1..];
      forall k | 0 <= k < j + 1
        ensures MatchHere(s[k..]).None?
      {
        if k > 0 {
          assert s[1..][k - 1..] == s[k..];
        }
      }
      assert MatchHere(s[j + 1..]) == FindMatch(s);
    }
  }

  /**
   * Text of exactly the claim shape, with any five numerals: it parses to the
   * numerals' values when all of them fit a u32, and otherwise fails with the
   * overflow error, never with the malformed-text error.
   */
  lemma ParseShape(id: string, x: string, y: string, width: string, height: string)
    requires IsNumeral(id) && IsNumeral(x) && IsNumeral(y) && IsNumeral(width) && IsNumeral(height)
    ensures Parse(Shape(id, x, y, width, height)) ==
      if DigitsValue(id) <= U32_MAX && DigitsValue(x) <= U32_MAX && DigitsValue(y) <= U32_MAX
         && DigitsValue(width) <= U32_MAX && DigitsValue(height) <= U32_MAX
      then Ok(Rect(DigitsValue(id), DigitsValue(x), DigitsValue(y), DigitsValue(width), DigitsValue(height)))
      else Err(ParseInt)
  {
    var c := Captures(id, x, y, width, height);
    var s := Shape(id, x, y, width, height);
    assert s <= s;
    MatchHereComplete(s, c);
  }

  /** Round trip: parsing the displayed text of any claim gives the claim back. */
  lemma ParseDisplay(r: Rect)
    ensures Parse(Display(r)) == Ok(r)
  {
    ParseShape(Decimal(r.id), Decimal(r.x), Decimal(r.y), Decimal(r.width), Decimal(r.height));
  }

  /** Text without a `#` contains no match and fails with the malformed error carrying the text. */
  lemma {:induction false} NoMarkMalformed(s: string)
    requires '#' !in s
    ensures FindMatch(s).None?
    ensures Parse(s) == Err(MalformedString(s))
  {
    if s != [] {
      assert s[0] != '#';
      assert forall c :: c in s[1..] ==> c in s;
      NoMarkMalformed(s[1..]);
    }
  }

  /** The parsing examples of the source's own tests. */
  lemma ParseExample()
    ensures Parse("#1 @ 1,5: 9x100") == Ok(Rect(1, 1, 5, 9, 100))
  {
    assert Decimal(1) == "1" && Decimal(5) == "5" && Decimal(9) == "9" && Decimal(100) == "100";
    assert "#1 @ 1,5: 9x100" == Shape("1", "1", "5", "9", "100");
    ParseShape("1", "1", "5", "9", "100");
  }

  lemma MalformedExample()
    ensures Parse("Elvish Pants") == Err(MalformedString("Elvish Pants"))
  {
    NoMarkMalformed("Elvish Pants");
  }

  /** Text whose first two fields match but whose third separator does not has no match at its start. */
  lemma ThirdSeparatorMissing(t: string, id: string, x: string, rest: string)
    requires IsNumeral(id) && IsNumeral(x) && Field(rest, ": ").None?
    requires t == "#" + (id + (" @ " + (x + ("," + rest))))
    ensures MatchHere(t).None?
  {
    assert t[1..] == id + (" @ " + (x + ("," + rest)));
    FieldOf(id, " @ ", x + ("," + rest));
    FieldOf(x, ",", rest);
  }

  lemma SecondDigitBreaks(t: string)
    requires |t| >= 3 && IsDigit(t[0]) && t[1] == ' '
    ensures Field(t, ": ").None?
  {
    assert DigitRun(t[1..]) == 0;
    assert t[1..3][0] == ' ';
  }

  /** A claim missing the `:` after its position does not match anywhere and is malformed. */
  lemma MissingColonExample()
    ensures Parse("#1 @ 1,5 9x100") == Err(MalformedString("#1 @ 1,5 9x100"))
  {
    MissingColonMalformed("#1 @ 1,5 9x100", "1 @ 1,5 9x100");
  }

  lemma MissingColonMalformed(s: string, tail: string)
    requires s == "#1 @ 1,5 9x100" && tail == "1 @ 1,5 9x100"
    ensures Parse(s) == Err(MalformedString(s))
  {
    MissingColonNoMatchHere(s);
    MissingColonTail(tail);
    assert s[1..] == tail;
    assert FindMatch(s) == FindMatch(tail);
  }

  lemma MissingColonNoMatchHere(s: string)
    requires s == "#1 @ 1,5 9x100"
    ensures MatchHere(s).None?
  {
    SecondDigitBreaks("5 9x100");
    assert s == "#" + ("1" + (" @ " + ("1" + ("," + "5 9x100"))));
    ThirdSeparatorMissing(s, "1", "1", "5 9x100");
  }

  lemma MissingColonTail(tail: string)
    requires tail == "1 @ 1,5 9x100"
    ensures FindMatch(tail).None?
  {
    assert '#' !in tail;
    NoMarkMalformed(tail);
  }

  lemma ShapeWithHeight(height: string)
    ensures Shape("1", "1", "5", "8", height) == "#1 @ 1,5: 8x" + height
  {
  }

  /** 999999999 fits a u32. */
  lemma NoOverflowExample()
    ensures Parse("#1 @ 1,5: 8x999999999") == Ok(Rect(1, 1, 5, 8, 999999999))
  {
    assert Decimal(1) == "1" && Decimal(5) == "5" && Decimal(8) == "8";
    assert Decimal(999) == "999";
    assert Decimal(999999) == "999999";
    assert Decimal(999999999) == "999999999";
    ShapeWithHeight("999999999");
    assert "#1 @ 1,5: 8x999999999" == "#1 @ 1,5: 8x" + "999999999";
    ParseShape("1", "1", "5", "8", "999999999");
  }

  lemma FiveBillion()
    ensures IsNumeral("5000000000") && DigitsValue("5000000000") == 5000000000
  {
    assert Decimal(50) == "50";
    assert Decimal(500) == "500";
    assert Decimal(5000) == "5000";
    assert Decimal(50000) == "50000";
    assert Decimal(500000) == "500000";
    assert Decimal(5000000) == "5000000";
    assert Decimal(50000000) == "50000000";
    assert Decimal(500000000) == "500000000";
    assert Decimal(5000000000) == "5000000000";
  }

  /** 5000000000 does not fit a u32. */
  lemma OverflowExample()
    ensures Parse("#1 @ 1,5: 8x5000000000") == Err(ParseInt)
  {
    assert Decimal(1) == "1" && Decimal(5) == "5" && Decimal(8) == "8";
    FiveBillion();
    ShapeWithHeight("5000000000");
    assert "#1 @ 1,5: 8x5000000000" == "#1 @ 1,5: 8x" + "5000000000";
    ParseShape("1", "1", "5", "8", "5000000000");
  }

  lemma DisplayExample()
    ensures Display(Rect(42, 6, 20, 10, 9001)) == "#42 @ 6,20: 10x9001"
  {
  }

}
