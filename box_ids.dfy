/**
 * Box-ID checks: the checksum that multiplies the number of IDs with some
 * letter occurring exactly twice by the number with some letter occurring
 * exactly three times, and the search for pairs of IDs that differ in a
 * given number of positions, with the characters they share.
 */
module BoxIds {
  import opened Wrappers

  // ---------------------------------------------------------------------
  // count_items and checksum
  // ---------------------------------------------------------------------

  /**
   * `count_items`: one map entry per distinct item, holding its number of
   * occurrences.
   */
  method CountItems<T(!new)>(values: seq<T>) returns (counts: map<T, nat>)
    ensures forall t :: t in counts <==> t in values
    ensures forall t :: t in counts ==> counts[t] == multiset(values)[t]
  {
    counts := map[];
    for i := 0 to |values|
      invariant forall t :: t in counts <==> t in values[..i]
      invariant forall t :: t in counts ==> counts[t] == multiset(values[..i])[t]
    {
      var item := values[i];
      assert values[..i + 1] == values[..i] + [item];
      if item in counts {
        counts := counts[item := counts[item] + 1];
      } else {
        counts := counts[item := 1];
      }
    }
    assert values[..|values|] == values;
  }

  /** Some character of `s` occurs in it exactly k times. */
  ghost predicate HasCount(s: string, k: nat) {
    exists c :: c in multiset(s) && multiset(s)[c] == k
  }

  /** The number of strings of `values` with some character occurring exactly k times. */
  ghost function CountWith(values: seq<string>, k: nat): nat {
    if values == [] then 0
    else CountWith(values[..|values| - 1], k) + (if HasCount(values[|values| - 1], k) then 1 else 0)
  }

  /**
   * `checksum`: the number of strings holding some character exactly twice,
   * times the number holding some character exactly three times; 0 for no
   * strings.
   */
  method Checksum(values: seq<string>) returns (checksum: nat)
    ensures checksum == CountWith(values, 2) * CountWith(values, 3)
    ensures values == [] ==> checksum == 0
  {
    if |values| == 0 {
      return 0;
    }
    var doubleRepeats, tripleRepeats := 0, 0;
    for i := 0 to |values|
      invariant doubleRepeats == CountWith(values[..i], 2)
      invariant tripleRepeats == CountWith(values[..i], 3)
    {
      var counts := CountItems(values[i]);
      var uniqueCounts := counts.Values;
      assert values[..i + 1][..i] == values[..i];
      assert 2 in uniqueCounts <==> HasCount(values[i], 2) by {
        CountValues(counts, values[i], 2);
      }
      assert 3 in uniqueCounts <==> HasCount(values[i], 3) by {
        CountValues(counts, values[i], 3);
      }
      if 2 in uniqueCounts {
        doubleRepeats := doubleRepeats + 1;
      }
      if 3 in uniqueCounts {
        tripleRepeats := tripleRepeats + 1;
      }
    }
    assert values[..|values|] == values;
    checksum := doubleRepeats * tripleRepeats;
  }

  /** `counts` maps each item of `values` to its number of occurrences, and nothing else. */
  ghost predicate CountsOf<T(!new)>(counts: map<T, nat>, values: seq<T>) {
    && (forall t :: t in counts <==> t in values)
    && (forall t :: t in counts ==> counts[t] == multiset(values)[t])
  }

  /** A count k >= 1 is among the values of the count map exactly when some character occurs k times. */
  lemma CountValues(counts: map<char, nat>, s: string, k: nat)
    requires CountsOf(counts, s) && k >= 1
    ensures k in counts.Values <==> HasCount(s, k)
  {
    if k in counts.Values {
      var c :| c in counts && counts[c] == k;
      assert multiset(s)[c] == k;
    }
    if HasCount(s, k) {
      var c :| c in multiset(s) && multiset(s)[c] == k;
      assert c in s;
      assert counts[c] == k;
    }
  }

  // Which IDs of the source's checksum example hold a pair or a triple.

  lemma ExampleIdAbcdef()
    ensures !HasCount("abcdef", 2) && !HasCount("abcdef", 3)
  {
    NoCount("abcdef", 2);
    NoCount("abcdef", 3);
  }

  lemma ExampleIdBababc()
    ensures HasCount("bababc", 2) && HasCount("bababc", 3)
  {
    assert multiset("bababc")['a'] == 2;
    assert multiset("bababc")['b'] == 3;
  }

  lemma ExampleIdAbbcde()
    ensures HasCount("abbcde", 2) && !HasCount("abbcde", 3)
  {
    assert multiset("abbcde")['b'] == 2;
    NoCount("abbcde", 3);
  }

  lemma ExampleIdAbcccd()
    ensures !HasCount("abcccd", 2) && HasCount("abcccd", 3)
  {
    NoCount("abcccd", 2);
    assert multiset("abcccd")['c'] == 3;
  }

  lemma ExampleIdAabcdd()
    ensures HasCount("aabcdd", 2) && !HasCount("aabcdd", 3)
  {
    assert multiset("aabcdd")['a'] == 2;
    NoCount("aabcdd", 3);
  }

  lemma ExampleIdAbcdee()
    ensures HasCount("abcdee", 2) && !HasCount("abcdee", 3)
  {
    assert multiset("abcdee")['e'] == 2;
    NoCount("abcdee", 3);
  }

  lemma ExampleIdAbabab()
    ensures !HasCount("ababab", 2) && HasCount("ababab", 3)
  {
    NoCount("ababab", 2);
    assert multiset("ababab")['a'] == 3;
  }

  /** Appending one ID adds one to the count exactly when it has the wanted repeat. */
  lemma CountWithAppend(values: seq<string>, s: string, k: nat)
    ensures CountWith(values + [s], k) == CountWith(values, k) + (if HasCount(s, k) then 1 else 0)
  {
    assert (values + [s])[..|values|] == values;
  }

  /** The counts over the first 2 IDs of the source's checksum example. */
  lemma ChecksumExampleTwo(a: string, b: string)
    requires a == "abcdef" && b == "bababc"
    ensures CountWith([a, b], 2) == 1 && CountWith([a, b], 3) == 1
  {
    ExampleIdAbcdef();
    ExampleIdBababc();
    assert [] + [a] == [a];
    AppendIds([], a, 0, 0);
    assert [a] + [b] == [a, b];
    AppendIds([a], b, 0, 0);
  }

  /** The counts over the first 3 IDs of the source's checksum example. */
  lemma ChecksumExampleThree(a: string, b: string, c: string)
    requires a == "abcdef" && b == "bababc" && c == "abbcde"
    ensures CountWith([a, b, c], 2) == 2 && CountWith([a, b, c], 3) == 1
  {
    ChecksumExampleTwo(a, b);
    ExampleIdAbbcde();
    assert [a, b] + [c] == [a, b, c];
    AppendIds([a, b], c, 1, 1);
  }

  /** The counts over the first 4 IDs of the source's checksum example. */
  lemma ChecksumExampleFour(a: string, b: string, c: string, d: string)
    requires a == "abcdef" && b == "bababc" && c == "abbcde" && d == "abcccd"
    ensures CountWith([a, b, c, d], 2) == 2 && CountWith([a, b, c, d], 3) == 2
  {
    ChecksumExampleThree(a, b, c);
    ExampleIdAbcccd();
    assert [a, b, c] + [d] == [a, b, c, d];
    AppendIds([a, b, c], d, 2, 1);
  }

  /** The counts over the first 5 IDs of the source's checksum example. */
  lemma ChecksumExampleFive(a: string, b: string, c: string, d: string, e: string)
    requires a == "abcdef" && b == "bababc" && c == "abbcde" && d == "abcccd" && e == "aabcdd"
    ensures CountWith([a, b, c, d, e], 2) == 3 && CountWith([a, b, c, d, e], 3) == 2
  {
    ChecksumExampleFour(a, b, c, d);
    ExampleIdAabcdd();
    assert [a, b, c, d] + [e] == [a, b, c, d, e];
    AppendIds([a, b, c, d], e, 2, 2);
  }

  /** The counts over the first 6 IDs of the source's checksum example. */
  lemma ChecksumExampleSix(a: string, b: string, c: string, d: string, e: string, f: string)
    requires a == "abcdef" && b == "bababc" && c == "abbcde" && d == "abcccd"
    requires e == "aabcdd" && f == "abcdee"
    ensures CountWith([a, b, c, d, e, f], 2) == 4 && CountWith([a, b, c, d, e, f], 3) == 2
  {
    ChecksumExampleFive(a, b, c, d, e);
    ExampleIdAbcdee();
    assert [a, b, c, d, e] + [f] == [a, b, c, d, e, f];
    AppendIds([a, b, c, d, e], f, 3, 2);
  }

  /** The counts over the first 7 IDs of the source's checksum example. */
  lemma ChecksumExampleSteps(a: string, b: string, c: string, d: string, e: string, f: string, g: string)
    requires a == "abcdef" && b == "bababc" && c == "abbcde" && d == "abcccd"
    requires e == "aabcdd" && f == "abcdee" && g == "ababab"
    ensures CountWith([a, b, c, d, e, f, g], 2) == 4 && CountWith([a, b, c, d, e, f, g], 3) == 3
  {
    ChecksumExampleSix(a, b, c, d, e, f);
    ExampleIdAbabab();
    assert [a, b, c, d, e, f] + [g] == [a, b, c, d, e, f, g];
    AppendIds([a, b, c, d, e, f], g, 4, 2);
  }

  /** The checksum example of the source's tests: 4 IDs with a pair, 3 with a triple, 12. */
  lemma ChecksumExample()
    ensures var ids := ["abcdef", "bababc", "abbcde", "abcccd", "aabcdd", "abcdee", "ababab"];
      CountWith(ids, 2) == 4 && CountWith(ids, 3) == 3 && CountWith(ids, 2) * CountWith(ids, 3) == 12
  {
    ChecksumExampleSteps("abcdef", "bababc", "abbcde", "abcccd", "aabcdd", "abcdee", "ababab");
  }

  /** A step of the example: the counts after one more ID. */
  lemma AppendIds(values: seq<string>, s: string, twos: nat, threes: nat)
    requires CountWith(values, 2) == twos && CountWith(values, 3) == threes
    ensures CountWith(values + [s], 2) == twos + (if HasCount(s, 2) then 1 else 0)
    ensures CountWith(values + [s], 3) == threes + (if HasCount(s, 3) then 1 else 0)
  {
    CountWithAppend(values, s, 2);
    CountWithAppend(values, s, 3);
  }

  /** A helper for the example: no character of a short ID occurs k times. */
  lemma NoCount(s: string, k: nat)
    requires |s| == 6 && k >= 2
    requires multiset(s)[s[0]] != k && multiset(s)[s[1]] != k && multiset(s)[s[2]] != k
    requires multiset(s)[s[3]] != k && multiset(s)[s[4]] != k && multiset(s)[s[5]] != k
    ensures !HasCount(s, k)
  {
    forall c | c in multiset(s)
      ensures multiset(s)[c] != k
    {
      assert c in s;
    }
  }

  // ---------------------------------------------------------------------
  // common_string_part and common_string_parts
  // ---------------------------------------------------------------------

  /** The characters at the positions where `left` and `right` agree, in order. */
  function Agreeing(left: string, right: string): string
    requires |left| == |right|
  {
    if left == [] then []
    else
      var n := |left| - 1;
      Agreeing(left[..n], right[..n]) + (if left[n] == right[n] then [left[n]] else [])
  }

  /** The positions where `left` and `right` agree, in increasing order. */
  function AgreeingPositions(left: string, right: string): seq<nat>
    requires |left| == |right|
  {
    if left == [] then []
    else
      var n := |left| - 1;
      AgreeingPositions(left[..n], right[..n]) + (if left[n] == right[n] then [n] else [])
  }

  /** The number of positions where `left` and `right` differ. */
  function Mismatches(left: string, right: string): nat
    requires |left| == |right|
  {
    if left == [] then 0
    else
      var n := |left| - 1;
      Mismatches(left[..n], right[..n]) + (if left[n] != right[n] then 1 else 0)
  }

  /** The agreeing characters fall short of the input's length by the number of mismatches. */
  lemma {:induction false} AgreeingLength(left: string, right: string)
    requires |left| == |right|
    ensures |Agreeing(left, right)| == |left| - Mismatches(left, right)
    ensures |AgreeingPositions(left, right)| == |Agreeing(left, right)|
  {
    if left != [] {
      var n := |left| - 1;
      AgreeingLength(left[..n], right[..n]);
    }
  }

  /**
   * Each agreeing position is a position of the inputs where they agree, and
   * `Agreeing` takes the character there, in the order of the positions.
   */
  lemma {:induction false} AgreeingAtPositions(left: string, right: string)
    requires |left| == |right|
    ensures var c, p := Agreeing(left, right), AgreeingPositions(left, right);
      |p| == |c| &&
      forall k :: 0 <= k < |p| ==> p[k] < |left| && left[p[k]] == right[p[k]] && c[k] == left[p[k]]
  {
    AgreeingLength(left, right);
    if left != [] {
      var n := |left| - 1;
      AgreeingAtPositions(left[..n], right[..n]);
      var c0, p0 := Agreeing(left[..n], right[..n]), AgreeingPositions(left[..n], right[..n]);
      var c, p := Agreeing(left, right), AgreeingPositions(left, right);
      forall k | 0 <= k < |p|
        ensures p[k] < |left| && left[p[k]] == right[p[k]] && c[k] == left[p[k]]
      {
        if k < |p0| {
          assert p[k] == p0[k] && c[k] == c0[k];
          assert left[..n][p0[k]] == left[p0[k]] && right[..n][p0[k]] == right[p0[k]];
        }
      }
    }
  }

  /** The agreeing positions are strictly increasing and below the length. */
  lemma {:induction false} AgreeingPositionsIncrease(left: string, right: string)
    requires |left| == |right|
    ensures forall k :: 0 <= k < |AgreeingPositions(left, right)| ==> AgreeingPositions(left, right)[k] < |left|
    ensures forall k, m :: 0 <= k < m < |AgreeingPositions(left, right)| ==>
      AgreeingPositions(left, right)[k] < AgreeingPositions(left, right)[m]
  {
    if left != [] {
      var n := |left| - 1;
      AgreeingPositionsIncrease(left[..n], right[..n]);
      var p0, p := AgreeingPositions(left[..n], right[..n]), AgreeingPositions(left, right);
      assert |left[..n]| == n;
      assert forall k :: 0 <= k < |p0| ==> p0[k] < |left[..n]|;
      assert p == p0 + (if left[n] == right[n] then [n] else []);
      forall k, m | 0 <= k < m < |p|
        ensures p[k] < p[m]
      {
        if m == |p0| {
          assert p[k] == p0[k];
        }
      }
    }
  }

  /** Every position where the inputs agree is an agreeing position. */
  lemma {:induction false} AgreeingPositionsComplete(left: string, right: string, i: int)
    requires |left| == |right| && 0 <= i < |left| && left[i] == right[i]
    ensures i in AgreeingPositions(left, right)
  {
    var n := |left| - 1;
    var p0, p := AgreeingPositions(left[..n], right[..n]), AgreeingPositions(left, right);
    if i < n {
      assert left[..n][i] == left[i] && right[..n][i] == right[i];
      AgreeingPositionsComplete(left[..n], right[..n], i);
      assert i in p0 && p == p0 + (if left[n] == right[n] then [n] else []);
    } else {
      assert p[|p| - 1] == n;
    }
  }

  /** Two IDs of one length have no mismatches exactly when they are equal, and then all characters agree. */
  lemma {:induction false} MismatchesZero(left: string, right: string)
    requires |left| == |right|
    ensures Mismatches(left, right) == 0 <==> left == right
    ensures left == right ==> Agreeing(left, right) == left
  {
    if left != [] {
      var n := |left| - 1;
      MismatchesZero(left[..n], right[..n]);
      assert left == left[..n] + [left[n]] && right == right[..n] + [right[n]];
    }
  }

  /** Character equality is symmetric, so the agreeing characters are too. */
  lemma {:induction false} AgreeingSymmetric(left: string, right: string)
    requires |left| == |right|
    ensures Agreeing(left, right) == Agreeing(right, left)
    ensures Mismatches(left, right) == Mismatches(right, left)
  {
    if left != [] {
      var n := |left| - 1;
      AgreeingSymmetric(left[..n], right[..n]);
    }
  }

  /**
   * What `common_string_part` computes: nothing for IDs of different
   * lengths; otherwise their agreeing characters, exactly when they differ
   * in `differences` positions.
   */
  function CommonPart(left: string, right: string, differences: nat): Option<string> {
    if |left| != |right| then None
    else if Mismatches(left, right) == differences then Some(Agreeing(left, right))
    else None
  }

  /**
   * The result is symmetric in the two IDs, and it is present exactly when the
   * lengths agree and the IDs differ in `differences` positions.
   */
  lemma CommonPartSymmetric(left: string, right: string, differences: nat)
    ensures CommonPart(left, right, differences) == CommonPart(right, left, differences)
  {
    if |left| == |right| {
      AgreeingSymmetric(left, right);
    }
  }

  /** `common_string_part`: zip the two IDs and keep the characters that agree. */
  method CommonStringPart(left: string, right: string, differences: nat) returns (common: Option<string>)
    ensures |left| != |right| ==> common == None
    ensures common == CommonPart(left, right, differences)
  {
    if |left| != |right| {
      return None;
    }
    var commonChars: string := [];
    for i := 0 to |left|
      invariant commonChars == Agreeing(left[..i], right[..i])
    {
      assert left[..i + 1][..i] == left[..i] && right[..i + 1][..i] == right[..i];
      if left[i] == right[i] {
        commonChars := commonChars + [left[i]];
      }
    }
    assert left[..|left|] == left && right[..|right|] == right;
    AgreeingLength(left, right);
    if |left| - |commonChars| == differences {
      common := Some(commonChars);
    } else {
      common := None;
    }
  }

  /** One pair of IDs and the characters they share. */
  datatype CommonString = CommonString(left: string, right: string, common: string)

  /** The results for the pairs (i, j) with i < j < hi, in increasing j. */
  function PairsWith(strings: seq<string>, differences: nat, i: nat, hi: nat): seq<CommonString>
    requires i < |strings| && hi <= |strings|
    decreases hi
  {
    if hi <= i + 1 then []
    else
      var j := hi - 1;
      PairsWith(strings, differences, i, j) +
        match CommonPart(strings[i], strings[j], differences)
        case Some(common) => [CommonString(strings[i], strings[j], common)]
        case None => []
  }

  /** The results for all pairs (i, j) with i < lo and i < j, in lexicographic (i, j) order. */
  function PairsBelow(strings: seq<string>, differences: nat, lo: nat): seq<CommonString>
    requires lo <= |strings|
  {
    if lo == 0 then []
    else PairsBelow(strings, differences, lo - 1) + PairsWith(strings, differences, lo - 1, |strings|)
  }

  /** A result for the pair (i, j) of `strings`. */
  ghost predicate ResultOf(strings: seq<string>, differences: nat, e: CommonString, i: int, j: int) {
    0 <= i < j < |strings| && e.left == strings[i] && e.right == strings[j]
    && CommonPart(strings[i], strings[j], differences) == Some(e.common)
  }

  lemma {:induction false} PairsWithMembers(strings: seq<string>, differences: nat, i: nat, hi: nat, e: CommonString)
    requires i < |strings| && hi <= |strings|
    ensures e in PairsWith(strings, differences, i, hi) <==>
      exists j :: i < j < hi && ResultOf(strings, differences, e, i, j)
    decreases hi
  {
    if hi > i + 1 {
      var j := hi - 1;
      PairsWithMembers(strings, differences, i, j, e);
      if ResultOf(strings, differences, e, i, j) {
        assert e in PairsWith(strings, differences, i, hi);
      }
    }
  }

  lemma {:induction false} PairsBelowMembers(strings: seq<string>, differences: nat, lo: nat, e: CommonString)
    requires lo <= |strings|
    ensures e in PairsBelow(strings, differences, lo) <==>
      exists i, j :: 0 <= i < lo && ResultOf(strings, differences, e, i, j)
  {
    if lo > 0 {
      var below := PairsBelow(strings, differences, lo - 1);
      var row := PairsWith(strings, differences, lo - 1, |strings|);
      assert PairsBelow(strings, differences, lo) == below + row;
      PairsBelowMembers(strings, differences, lo - 1, e);
      PairsWithMembers(strings, differences, lo - 1, |strings|, e);
      if e in below + row {
        if e in below {
          var i, j :| 0 <= i < lo - 1 && ResultOf(strings, differences, e, i, j);
          assert 0 <= i < lo && ResultOf(strings, differences, e, i, j);
        } else {
          assert e in row;
          var j :| lo - 1 < j < |strings| && ResultOf(strings, differences, e, lo - 1, j);
          assert 0 <= lo - 1 < lo && ResultOf(strings, differences, e, lo - 1, j);
        }
      }
      if exists i, j :: 0 <= i < lo && ResultOf(strings, differences, e, i, j) {
        var i, j :| 0 <= i < lo && ResultOf(strings, differences, e, i, j);
        if i == lo - 1 {
          assert lo - 1 < j < |strings| && ResultOf(strings, differences, e, lo - 1, j);
          assert e in row;
        } else {
          assert 0 <= i < lo - 1 && ResultOf(strings, differences, e, i, j);
          assert e in below;
        }
      }
    }
  }

  /**
   * `common_string_parts`: every pair i < j of IDs checked once, in
   * lexicographic (i, j) order, keeping those that differ in exactly
   * `differences` positions.
   */
  method CommonStringParts(strings: seq<string>, differences: nat) returns (result: seq<CommonString>)
    ensures result == PairsBelow(strings, differences, |strings|)
    ensures forall e :: e in result <==>
      exists i, j :: ResultOf(strings, differences, e, i, j)
  {
    result := [];
    for i := 0 to |strings|
      invariant result == PairsBelow(strings, differences, i)
    {
      for j := i + 1 to |strings|
        invariant result == PairsBelow(strings, differences, i) + PairsWith(strings, differences, i, j)
      {
        var left, right := strings[i], strings[j];
        var common := CommonStringPart(left, right, differences);
        if common.Some? {
          result := result + [CommonString(left, right, common.value)];
        }
      }
    }
    forall e
      ensures e in result <==> exists i, j :: ResultOf(strings, differences, e, i, j)
    {
      PairsBelowMembers(strings, differences, |strings|, e);
    }
  }

  /** The pairs of the source's tests: one mismatch leaves "fgij", two leave "ace". */
  lemma CommonPartExamples()
    ensures CommonPart("fghij", "fguij", 1) == Some("fgij")
    ensures CommonPart("abcde", "axcye", 2) == Some("ace")
    ensures CommonPart("abcde", "fghij", 1) == None
    ensures forall d :: CommonPart("abc", "abdef", d) == None
  {
    CommonPartFghij("fghij", "fguij");
    CommonPartAbcde("abcde", "axcye");
    MismatchesOfFive("abcde", "fghij");
  }

  lemma CommonPartFghij(left: string, right: string)
    requires left == "fghij" && right == "fguij"
    ensures CommonPart(left, right, 1) == Some("fgij")
  {
    MismatchesOfFive(left, right);
    AgreeingOfFive(left, right);
    assert Kept(left, right, 0) == "f" && Kept(left, right, 1) == "g" && Kept(left, right, 2) == [];
    assert Kept(left, right, 3) == "i" && Kept(left, right, 4) == "j";
    assert "f" + "g" + [] + "i" + "j" == "fgij";
  }

  lemma CommonPartAbcde(left: string, right: string)
    requires left == "abcde" && right == "axcye"
    ensures CommonPart(left, right, 2) == Some("ace")
  {
    MismatchesOfFive(left, right);
    AgreeingOfFive(left, right);
    assert Kept(left, right, 0) == "a" && Kept(left, right, 1) == [] && Kept(left, right, 2) == "c";
    assert Kept(left, right, 3) == [] && Kept(left, right, 4) == "e";
    assert "a" + [] + "c" + [] + "e" == "ace";
  }

  /** One more position extends the agreeing characters by that position's agreement. */
  lemma AgreeingStep(left: string, right: string, n: nat)
    requires |left| == |right| && n < |left|
    ensures Agreeing(left[..n + 1], right[..n + 1]) ==
      Agreeing(left[..n], right[..n]) + (if left[n] == right[n] then [left[n]] else [])
  {
    assert left[..n + 1][..n] == left[..n] && right[..n + 1][..n] == right[..n];
  }

  /** The characters kept at position i: the character itself when both IDs agree there. */
  function Kept(left: string, right: string, i: nat): string
    requires i < |left| && i < |right|
  {
    if left[i] == right[i] then [left[i]] else []
  }

  /** For IDs of five characters, the agreeing characters are those kept at the five positions, in order. */
  lemma AgreeingOfFive(left: string, right: string)
    requires |left| == 5 && |right| == 5
    ensures Agreeing(left, right) ==
      Kept(left, right, 0) + Kept(left, right, 1) + Kept(left, right, 2) + Kept(left, right, 3) + Kept(left, right, 4)
  {
    var k0, k1, k2, k3, k4 := Kept(left, right, 0), Kept(left, right, 1), Kept(left, right, 2), Kept(left, right, 3), Kept(left, right, 4);
    assert Agreeing(left[..0], right[..0]) == [];
    AgreeingStep(left, right, 0);
    assert [] + k0 == k0;
    assert Agreeing(left[..1], right[..1]) == k0;
    AgreeingStep(left, right, 1);
    assert Agreeing(left[..2], right[..2]) == k0 + k1;
    AgreeingStep(left, right, 2);
    assert Agreeing(left[..3], right[..3]) == k0 + k1 + k2;
    AgreeingStep(left, right, 3);
    assert Agreeing(left[..4], right[..4]) == k0 + k1 + k2 + k3;
    AgreeingStep(left, right, 4);
    assert Agreeing(left[..5], right[..5]) == k0 + k1 + k2 + k3 + k4;
    assert left[..5] == left && right[..5] == right;
  }

  /** For IDs of five characters, the mismatches are the sum over the five positions. */
  lemma MismatchesOfFive(left: string, right: string)
    requires |left| == 5 && |right| == 5
    ensures Mismatches(left, right) ==
      (if left[0] != right[0] then 1 else 0) + (if left[1] != right[1] then 1 else 0) +
      (if left[2] != right[2] then 1 else 0) + (if left[3] != right[3] then 1 else 0) +
      (if left[4] != right[4] then 1 else 0)
  {
    for n := 0 to 5
      invariant Mismatches(left[..n], right[..n]) ==
        (if n > 0 && left[0] != right[0] then 1 else 0) + (if n > 1 && left[1] != right[1] then 1 else 0) +
        (if n > 2 && left[2] != right[2] then 1 else 0) + (if n > 3 && left[3] != right[3] then 1 else 0) +
        (if n > 4 && left[4] != right[4] then 1 else 0)
    {
      assert left[..n + 1][..n] == left[..n] && right[..n + 1][..n] == right[..n];
    }
    assert left[..5] == left && right[..5] == right;
  }

  /** The source's example: among seven IDs, one pair differs in one position and one in two. */
  lemma CommonStringPartsExample()
    ensures PairsBelow(["abcde", "fghij", "klmno", "pqrst", "fguij", "axcye", "wvxyz"], 1, 7) == [CommonString("fghij", "fguij", "fgij")]
    ensures PairsBelow(["abcde", "fghij", "klmno", "pqrst", "fguij", "axcye", "wvxyz"], 2, 7) == [CommonString("abcde", "axcye", "ace")]
  {
    PairsExampleOneDifference(["abcde", "fghij", "klmno", "pqrst", "fguij", "axcye", "wvxyz"]);
    PairsExampleTwoDifferences(["abcde", "fghij", "klmno", "pqrst", "fguij", "axcye", "wvxyz"]);
  }

  lemma PairsExampleOneDifference(strings: seq<string>)
    requires strings == ["abcde", "fghij", "klmno", "pqrst", "fguij", "axcye", "wvxyz"]
    ensures PairsBelow(strings, 1, 7) == [CommonString("fghij", "fguij", "fgij")]
  {
    PairsExampleRow0(strings);
    assert PairsBelow(strings, 1, 1) == [];
    PairsExampleRow1(strings);
    assert PairsBelow(strings, 1, 2) == PairsBelow(strings, 1, 1) + PairsWith(strings, 1, 1, 7);
    assert PairsBelow(strings, 1, 2) == [CommonString("fghij", "fguij", "fgij")];
    PairsExampleRow2(strings);
    assert PairsBelow(strings, 1, 3) == [CommonString("fghij", "fguij", "fgij")];
    PairsExampleRow3(strings);
    assert PairsBelow(strings, 1, 4) == [CommonString("fghij", "fguij", "fgij")];
    PairsExampleRow4(strings);
    assert PairsBelow(strings, 1, 5) == [CommonString("fghij", "fguij", "fgij")];
    PairsExampleRow5(strings);
    assert PairsBelow(strings, 1, 6) == [CommonString("fghij", "fguij", "fgij")];
    assert PairsWith(strings, 1, 6, 7) == [];
    assert PairsBelow(strings, 1, 7) == [CommonString("fghij", "fguij", "fgij")];
  }

  lemma PairsExampleTwoDifferences(strings: seq<string>)
    requires strings == ["abcde", "fghij", "klmno", "pqrst", "fguij", "axcye", "wvxyz"]
    ensures PairsBelow(strings, 2, 7) == [CommonString("abcde", "axcye", "ace")]
  {
    PairsExampleRow0(strings);
    assert PairsBelow(strings, 2, 1) == PairsBelow(strings, 2, 0) + PairsWith(strings, 2, 0, 7);
    assert PairsBelow(strings, 2, 1) == [CommonString("abcde", "axcye", "ace")];
    PairsExampleRow1(strings);
    assert PairsBelow(strings, 2, 2) == [CommonString("abcde", "axcye", "ace")];
    PairsExampleRow2(strings);
    assert PairsBelow(strings, 2, 3) == [CommonString("abcde", "axcye", "ace")];
    PairsExampleRow3(strings);
    assert PairsBelow(strings, 2, 4) == [CommonString("abcde", "axcye", "ace")];
    PairsExampleRow4(strings);
    assert PairsBelow(strings, 2, 5) == [CommonString("abcde", "axcye", "ace")];
    PairsExampleRow5(strings);
    assert PairsBelow(strings, 2, 6) == [CommonString("abcde", "axcye", "ace")];
    assert PairsWith(strings, 2, 6, 7) == [];
    assert PairsBelow(strings, 2, 7) == [CommonString("abcde", "axcye", "ace")];
  }

  /** Row 0 of the pairs of the seven example IDs. */
  lemma PairsExampleRow0(strings: seq<string>)
    requires strings == ["abcde", "fghij", "klmno", "pqrst", "fguij", "axcye", "wvxyz"]
    ensures PairsWith(strings, 1, 0, 7) == []
    ensures PairsWith(strings, 2, 0, 7) == [CommonString("abcde", "axcye", "ace")]
  {
    CommonPartExamples();
    MismatchesOfFive(strings[0], strings[1]);
    MismatchesOfFive(strings[0], strings[2]);
    MismatchesOfFive(strings[0], strings[3]);
    MismatchesOfFive(strings[0], strings[4]);
    MismatchesOfFive(strings[0], strings[5]);
    MismatchesOfFive(strings[0], strings[6]);
  }

  /** Row 1 of the pairs of the seven example IDs. */
  lemma PairsExampleRow1(strings: seq<string>)
    requires strings == ["abcde", "fghij", "klmno", "pqrst", "fguij", "axcye", "wvxyz"]
    ensures PairsWith(strings, 1, 1, 7) == [CommonString("fghij", "fguij", "fgij")]
    ensures PairsWith(strings, 2, 1, 7) == []
  {
    CommonPartExamples();
    MismatchesOfFive(strings[1], strings[2]);
    MismatchesOfFive(strings[1], strings[3]);
    MismatchesOfFive(strings[1], strings[4]);
    MismatchesOfFive(strings[1], strings[5]);
    MismatchesOfFive(strings[1], strings[6]);
  }

  /** Row 2 of the pairs of the seven example IDs. */
  lemma PairsExampleRow2(strings: seq<string>)
    requires strings == ["abcde", "fghij", "klmno", "pqrst", "fguij", "axcye", "wvxyz"]
    ensures PairsWith(strings, 1, 2, 7) == []
    ensures PairsWith(strings, 2, 2, 7) == []
  {
    MismatchesOfFive(strings[2], strings[3]);
    MismatchesOfFive(strings[2], strings[4]);
    MismatchesOfFive(strings[2], strings[5]);
    MismatchesOfFive(strings[2], strings[6]);
  }

  /** Row 3 of the pairs of the seven example IDs. */
  lemma PairsExampleRow3(strings: seq<string>)
    requires strings == ["abcde", "fghij", "klmno", "pqrst", "fguij", "axcye", "wvxyz"]
    ensures PairsWith(strings, 1, 3, 7) == []
    ensures PairsWith(strings, 2, 3, 7) == []
  {
    MismatchesOfFive(strings[3], strings[4]);
    MismatchesOfFive(strings[3], strings[5]);
    MismatchesOfFive(strings[3], strings[6]);
  }

  /** Row 4 of the pairs of the seven example IDs. */
  lemma PairsExampleRow4(strings: seq<string>)
    requires strings == ["abcde", "fghij", "klmno", "pqrst", "fguij", "axcye", "wvxyz"]
    ensures PairsWith(strings, 1, 4, 7) == []
    ensures PairsWith(strings, 2, 4, 7) == []
  {
    MismatchesOfFive(strings[4], strings[5]);
    MismatchesOfFive(strings[4], strings[6]);
  }

  /** Row 5 of the pairs of the seven example IDs. */
  lemma PairsExampleRow5(strings: seq<string>)
    requires strings == ["abcde", "fghij", "klmno", "pqrst", "fguij", "axcye", "wvxyz"]
    ensures PairsWith(strings, 1, 5, 7) == []
    ensures PairsWith(strings, 2, 5, 7) == []
  {
    MismatchesOfFive(strings[5], strings[6]);
  }

  /** IDs of different lengths never pair up, whatever the number of differences. */
  lemma DifferentLengthsExample(differences: nat)
    ensures PairsBelow(["abc", "abdef"], differences, 2) == []
  {
    var strings := ["abc", "abdef"];
    assert CommonPart(strings[0], strings[1], differences) == None;
    assert PairsWith(strings, differences, 0, 2) == [];
    assert PairsBelow(strings, differences, 1) == [];
  }

  /** The source's test of `count_items`, stated through the method. */
  method CountItemsScenario() returns (counts: map<int, nat>)
    ensures counts == map[1 := 2, 2 := 1, 3 := 1, 5 := 4]
  {
    counts := CountItems([1, 1, 2, 3, 5, 5, 5, 5]);
    assert multiset([1, 1, 2, 3, 5, 5, 5, 5])[1] == 2;
    assert multiset([1, 1, 2, 3, 5, 5, 5, 5])[5] == 4;
    assert counts.Keys == {1, 2, 3, 5};
  }

  /** The source's test of IDs of different lengths, stated through the method. */
  method DifferentLengthsScenario(differences: nat) returns (parts: seq<CommonString>)
    ensures parts == []
  {
    parts := CommonStringParts(["abc", "abdef"], differences);
    DifferentLengthsExample(differences);
  }
}
