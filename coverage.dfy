/**
 * The comparison in check-i18n.js: for every locale file other than `en.yaml`, the
 * reference paths it lacks, its own path count and its coverage rounded to a tenth of a
 * percent; then the results in descending order of coverage, by a stable sort.
 *
 * Reading the directory and the files is left to the caller: the checker is given the
 * reference text and the listing as (name, text) pairs in directory order.
 */
module Coverage {
  import opened Wrappers
  import opened Text
  import opened YamlTree
  import opened YamlParser
  import opened KeyPaths

  predicate Distinct(xs: seq<string>) {
    forall i, j :: 0 <= i < j < |xs| ==> xs[i] != xs[j]
  }

  /** `[...new Set(xs)]`: first occurrences in order, each value once. */
  function Dedup(xs: seq<string>): seq<string>
    decreases |xs|
  {
    if xs == [] then []
    else
      var d := Dedup(xs[..|xs| - 1]);
      if xs[|xs| - 1] in d then d else d + [xs[|xs| - 1]]
  }

  /** The set holds each value of `xs` exactly once. */
  lemma {:induction false} DedupFacts(xs: seq<string>)
    ensures Distinct(Dedup(xs))
    ensures forall x :: x in Dedup(xs) <==> x in xs
    ensures |Dedup(xs)| <= |xs|
    decreases |xs|
  {
    if xs != [] {
      var init := xs[..|xs| - 1];
      DedupFacts(init);
      assert xs == init + [xs[|xs| - 1]];
    }
  }

  /** A sequence without repeats is its own set enumeration. */
  lemma {:induction false} DedupDistinct(xs: seq<string>)
    requires Distinct(xs)
    ensures Dedup(xs) == xs
    decreases |xs|
  {
    if xs != [] {
      var init := xs[..|xs| - 1];
      DedupDistinct(init);
      assert xs[|xs| - 1] !in init;
      assert init + [xs[|xs| - 1]] == xs;
    }
  }

  /** The position of the first occurrence of `x` in `xs`. */
  function Position(xs: seq<string>, x: string): (r: nat)
    requires x in xs
    ensures r < |xs| && xs[r] == x && x !in xs[..r]
  {
    if xs[0] == x then 0
    else
      assert x in xs[1..] by { var i :| 0 <= i < |xs| && xs[i] == x; assert xs[1..][i - 1] == x; }
      var r := 1 + Position(xs[1..], x);
      assert xs[..r] == [xs[0]] + xs[1..][..r - 1];
      r
  }

  /** Only the first occurrence is an occurrence with none before it. */
  lemma PositionUnique(xs: seq<string>, x: string, k: nat)
    requires k < |xs| && xs[k] == x && x !in xs[..k]
    ensures Position(xs, x) == k
  {
  }

  /** Set enumeration order is insertion order: the distinct values come in the order of
      their first occurrences in `xs`. */
  lemma {:induction false} DedupOrder(xs: seq<string>, i: nat, j: nat)
    requires i < j < |Dedup(xs)|
    ensures Dedup(xs)[i] in xs && Dedup(xs)[j] in xs
    ensures Position(xs, Dedup(xs)[i]) < Position(xs, Dedup(xs)[j])
    decreases |xs|
  {
    var init, last := xs[..|xs| - 1], xs[|xs| - 1];
    var d := Dedup(init);
    DedupFacts(init);
    assert xs == init + [last];
    if j < |d| {
      DedupOrder(init, i, j);
      PositionInPrefix(init, last, d[i]);
      PositionInPrefix(init, last, d[j]);
    } else {
      assert last !in init;
      PositionInPrefix(init, last, d[i]);
      PositionUnique(xs, last, |init|);
    }
  }

  lemma PositionInPrefix(init: seq<string>, last: string, x: string)
    requires x in init
    ensures x in init + [last] && Position(init + [last], x) == Position(init, x)
  {
    var k := Position(init, x);
    assert (init + [last])[..k] == init[..k];
    PositionUnique(init + [last], x, k);
  }

  /** `[...enKeys].filter(k => !keys.has(k))`. */
  function MissingKeys(reference: seq<string>, have: seq<string>): (r: seq<string>)
    ensures |r| <= |reference|
  {
    if reference == [] then []
    else (if reference[0] in have then [] else [reference[0]]) + MissingKeys(reference[1..], have)
  }

  /** A key is missing exactly when the reference has it and the locale does not. */
  lemma {:induction false} MissingKeysFacts(reference: seq<string>, have: seq<string>)
    ensures forall x :: x in MissingKeys(reference, have) <==> x in reference && x !in have
  {
    if reference != [] {
      MissingKeysFacts(reference[1..], have);
      assert reference == [reference[0]] + reference[1..];
    }
  }

  /** The reference keys the locale has: the complement of `MissingKeys` within the reference. */
  function PresentKeys(reference: seq<string>, have: seq<string>): seq<string>
  {
    if reference == [] then []
    else (if reference[0] in have then [reference[0]] else []) + PresentKeys(reference[1..], have)
  }

  /** The filter keeps reference order: it distributes over concatenation. */
  lemma {:induction false} MissingKeysAppend(a: seq<string>, b: seq<string>, have: seq<string>)
    ensures MissingKeys(a + b, have) == MissingKeys(a, have) + MissingKeys(b, have)
  {
    if a != [] {
      assert (a + b)[1..] == a[1..] + b;
      MissingKeysAppend(a[1..], b, have);
    } else {
      assert a + b == b;
    }
  }

  /** Every reference key is either missing or present. */
  lemma {:induction false} MissingPlusPresent(reference: seq<string>, have: seq<string>)
    ensures |MissingKeys(reference, have)| + |PresentKeys(reference, have)| == |reference|
    ensures forall x :: x in PresentKeys(reference, have) <==> x in reference && x in have
    ensures Distinct(reference) ==> Distinct(PresentKeys(reference, have))
  {
    if reference != [] {
      var rest := reference[1..];
      MissingPlusPresent(rest, have);
      if Distinct(reference) {
        assert Distinct(rest) by {
          forall i, j | 0 <= i < j < |rest| ensures rest[i] != rest[j] {
            assert rest[i] == reference[i + 1] && rest[j] == reference[j + 1];
          }
        }
        assert reference[0] !in rest by {
          forall i | 0 <= i < |rest| ensures rest[i] != reference[0] {
            assert rest[i] == reference[i + 1];
          }
        }
      }
    }
  }

  function Elements(xs: seq<string>): set<string> {
    set x | x in xs
  }

  lemma {:induction false} DistinctCard(xs: seq<string>)
    requires Distinct(xs)
    ensures |Elements(xs)| == |xs|
    decreases |xs|
  {
    if xs != [] {
      var init := xs[..|xs| - 1];
      var x := xs[|xs| - 1];
      assert Distinct(init);
      DistinctCard(init);
      assert xs == init + [x];
      assert x !in init;
      assert Elements(xs) == Elements(init) + {x};
    }
  }

  /** `enKeys.size - missing.length` is the number of reference keys the locale has. */
  lemma CoveredCount(reference: seq<string>, have: seq<string>)
    requires Distinct(reference)
    ensures |reference| - |MissingKeys(reference, have)| == |Elements(reference) * Elements(have)|
  {
    var present := PresentKeys(reference, have);
    MissingPlusPresent(reference, have);
    DistinctCard(present);
    assert Elements(present) == Elements(reference) * Elements(have);
  }

  /** Nothing is missing exactly when every reference key is present. */
  lemma NothingMissing(reference: seq<string>, have: seq<string>)
    ensures MissingKeys(reference, have) == [] <==> forall x :: x in reference ==> x in have
  {
    var m := MissingKeys(reference, have);
    MissingKeysFacts(reference, have);
    if m != [] {
      assert m[0] in m;
    }
  }

  // ---------------------------------------------------------------------------
  // The rounded percentage

  /** `toFixed(1)` of the coverage: a whole number of tenths of a percent, or `NaN` for
      `0 / 0` when the reference has no keys. */
  datatype Percent = NaN | Tenths(t: nat)

  /** `((size - missing) / size * 100).toFixed(1)`, rounded half up on the exact ratio. */
  function PercentOf(size: nat, missing: nat): Percent
    requires missing <= size
  {
    if size == 0 then NaN else Tenths((2000 * (size - missing) + size) / (2 * size))
  }

  /** The figure is the tenth of a percent nearest to the exact ratio, ties upwards, and
      lies between 0.0 and 100.0: scaled by `2 * size`, the ratio in tenths,
      `1000 * (size - missing) / size`, lies within half a tenth below or less than half
      a tenth above `t`. */
  lemma PercentNearest(size: nat, missing: nat)
    requires 0 < size && missing <= size
    ensures PercentOf(size, missing).Tenths?
    ensures PercentOf(size, missing).t <= 1000
    ensures var distance: int := 2000 * (size - missing) - 2 * size * PercentOf(size, missing).t;
      -(size as int) <= distance < size
  {
    var n := 2000 * (size - missing) + size;
    var d := 2 * size;
    DivBounds(n, d);
    assert n < d * 1001;
    var q := n / d;
    assert q <= 1000 by {
      if q > 1000 {
        MulMonotone(d, 1001, q);
      }
    }
  }

  lemma DivBounds(n: nat, d: nat)
    requires 0 < d
    ensures d * (n / d) <= n < d * (n / d + 1)
  {
  }

  lemma MulMonotone(d: nat, a: nat, b: nat)
    requires a <= b
    ensures d * a <= d * b
  {
  }

  /** Nothing missing gives 100.0, everything missing gives 0.0. */
  lemma PercentEnds(size: nat)
    requires 0 < size
    ensures PercentOf(size, 0) == Tenths(1000)
    ensures PercentOf(size, size) == Tenths(0)
  {
    DivUnique(2000 * size + size, 2 * size, 1000);
    DivUnique(size, 2 * size, 0);
  }

  lemma DivUnique(n: nat, d: nat, q: nat)
    requires 0 < d && d * q <= n < d * q + d
    ensures n / d == q
  {
    DivBounds(n, d);
    if n / d < q {
      MulMonotone(d, n / d + 1, q);
    } else if n / d > q {
      MulMonotone(d, q + 1, n / d);
    }
  }

  /** 100.0 does not mean complete: one key missing out of 10000 still rounds to 100.0. */
  lemma HundredWithMissing()
    ensures PercentOf(10000, 1) == Tenths(1000)
  {
  }

  /** 0.0 does not mean empty: one key present out of 10000 still rounds to 0.0. */
  lemma ZeroWithOnePresent()
    ensures PercentOf(10000, 9999) == Tenths(0)
  {
  }

  /** More missing keys never give a higher figure. */
  lemma PercentMonotone(size: nat, m1: nat, m2: nat)
    requires 0 < size && m1 <= m2 <= size
    ensures PercentOf(size, m2).t <= PercentOf(size, m1).t
  {
    var a := 2000 * (size - m1) + size;
    var b := 2000 * (size - m2) + size;
    assert b <= a;
    DivMonotone(b, a, 2 * size);
  }

  lemma DivMonotone(b: nat, a: nat, d: nat)
    requires b <= a && 0 < d
    ensures b / d <= a / d
  {
    DivBounds(a, d);
    DivBounds(b, d);
    if b / d > a / d {
      MulMonotone(d, a / d + 1, b / d);
    }
  }

  // ---------------------------------------------------------------------------
  // One locale

  datatype LocaleFile = LocaleFile(name: string, content: string)

  /** One entry of `results`. */
  datatype Coverage = Coverage(file: string, total: nat, missing: nat, percent: Percent, missingKeys: seq<string>)

  /** `f.endsWith('.yaml') && f !== 'en.yaml'`. */
  predicate IsLocaleCandidate(name: string) {
    EndsWith(name, ".yaml") && name != "en.yaml"
  }

  function Candidates(listing: seq<LocaleFile>): (r: seq<LocaleFile>)
    ensures forall f :: f in r <==> f in listing && IsLocaleCandidate(f.name)
    ensures |r| <= |listing|
  {
    if listing == [] then []
    else (if IsLocaleCandidate(listing[0].name) then [listing[0]] else []) + Candidates(listing[1..])
  }

  /** The filter keeps listing order: the candidates of `a + b` are those of `a`, then
      those of `b`. */
  lemma {:induction false} CandidatesAppend(a: seq<LocaleFile>, b: seq<LocaleFile>)
    ensures Candidates(a + b) == Candidates(a) + Candidates(b)
  {
    if a == [] {
      assert a + b == b;
    } else {
      assert (a + b)[1..] == a[1..] + b;
      CandidatesAppend(a[1..], b);
    }
  }

  /** `new Set(getAllKeyPaths(parseYaml(content)))`, in insertion order. */
  function PathSet(content: string): seq<string> {
    Dedup(AllKeyPaths(Parse(content)))
  }

  /** A locale file once read and parsed: its name and its distinct key paths. */
  datatype Scan = Scan(name: string, keys: seq<string>)

  function ScanOf(f: LocaleFile): Scan {
    Scan(f.name, PathSet(f.content))
  }

  /** The scans of `files`, in listing order. */
  function ScanAll(files: seq<LocaleFile>): seq<Scan>
    decreases |files|
  {
    if files == [] then [] else ScanAll(files[..|files| - 1]) + [ScanOf(files[|files| - 1])]
  }

  /** One scan per file. */
  lemma {:induction false} ScanAllLength(files: seq<LocaleFile>)
    ensures |ScanAll(files)| == |files|
    decreases |files|
  {
    if files != [] { ScanAllLength(files[..|files| - 1]); }
  }

  /** The scan at position `i` is the scan of the file at position `i`. */
  lemma {:induction false} ScanAllAt(files: seq<LocaleFile>, i: nat)
    requires i < |files|
    ensures |ScanAll(files)| == |files| && ScanAll(files)[i] == ScanOf(files[i])
    decreases |files|
  {
    var init := files[..|files| - 1];
    ScanAllLength(init);
    if i < |init| {
      ScanAllAt(init, i);
      assert init[i] == files[i];
    }
  }

  /** The scans keep the candidates' order, one scan per file. */
  lemma ScanAllEach(files: seq<LocaleFile>)
    ensures |ScanAll(files)| == |files|
    ensures forall i :: 0 <= i < |files| ==> ScanAll(files)[i] == ScanOf(files[i])
  {
    ScanAllLength(files);
    forall i | 0 <= i < |files| ensures ScanAll(files)[i] == ScanOf(files[i]) {
      ScanAllAt(files, i);
    }
  }

  /** The entry pushed onto `results` for one scanned file. */
  function CoverageOf(reference: seq<string>, s: Scan): Coverage {
    var missing := MissingKeys(reference, s.keys);
    Coverage(s.name, |s.keys|, |missing|, PercentOf(|reference|, |missing|), missing)
  }

  /** What one result says: the file's own distinct path count, the reference keys it
      lacks in reference order, their number, and the figure for that number. */
  lemma CoverageOfFacts(reference: seq<string>, f: LocaleFile)
    requires Distinct(reference)
    ensures var c := CoverageOf(reference, ScanOf(f));
      && c.file == f.name
      && c.total == |Elements(PathSet(f.content))|
      && c.missing == |c.missingKeys|
      && (forall k :: k in c.missingKeys <==> k in reference && k !in PathSet(f.content))
      && |reference| - c.missing == |Elements(reference) * Elements(PathSet(f.content))|
      && (c.missing == 0 <==> forall k :: k in reference ==> k in PathSet(f.content))
      && (|reference| == 0 <==> c.percent.NaN?)
  {
    DedupFacts(AllKeyPaths(Parse(f.content)));
    MissingKeysFacts(reference, PathSet(f.content));
    DistinctCard(PathSet(f.content));
    CoveredCount(reference, PathSet(f.content));
    NothingMissing(reference, PathSet(f.content));
  }

  // ---------------------------------------------------------------------------
  // `results.sort((a, b) => parseFloat(b.percent) - parseFloat(a.percent))`

  /** `a` is ordered strictly before `b`. A `NaN` difference counts as equal. */
  predicate Before(a: Coverage, b: Coverage) {
    a.percent.Tenths? && b.percent.Tenths? && a.percent.t > b.percent.t
  }

  /** Insert `x` after the last element it does not belong before. */
  function Insert(s: seq<Coverage>, x: Coverage): seq<Coverage>
    decreases |s|
  {
    if s == [] then [x]
    else if Before(x, s[|s| - 1]) then Insert(s[..|s| - 1], x) + [s[|s| - 1]]
    else s + [x]
  }

  lemma {:induction false} InsertPermutes(s: seq<Coverage>, x: Coverage)
    ensures multiset(Insert(s, x)) == multiset(s) + multiset{x}
    decreases |s|
  {
    if s != [] && Before(x, s[|s| - 1]) {
      InsertPermutes(s[..|s| - 1], x);
      assert s == s[..|s| - 1] + [s[|s| - 1]];
    }
  }

  /** The stable sort, as insertion of each element in input order. */
  function SortedByPercent(xs: seq<Coverage>): seq<Coverage>
    decreases |xs|
  {
    if xs == [] then [] else Insert(SortedByPercent(xs[..|xs| - 1]), xs[|xs| - 1])
  }

  /** The sort is a permutation of its input. */
  lemma {:induction false} SortedPermutes(xs: seq<Coverage>)
    ensures multiset(SortedByPercent(xs)) == multiset(xs)
    decreases |xs|
  {
    if xs != [] {
      var init, last := xs[..|xs| - 1], xs[|xs| - 1];
      assert SortedByPercent(xs) == Insert(SortedByPercent(init), last);
      assert multiset(xs) == multiset(init) + multiset{last} by {
        assert xs == init + [last];
      }
      SortedPermutes(init);
      InsertPermutes(SortedByPercent(init), last);
    }
  }

  predicate Descending(s: seq<Coverage>) {
    forall i, j :: 0 <= i < j < |s| ==> !Before(s[j], s[i])
  }

  predicate AllRated(s: seq<Coverage>) {
    forall i :: 0 <= i < |s| ==> s[i].percent.Tenths?
  }

  lemma {:induction false} InsertDescending(s: seq<Coverage>, x: Coverage)
    requires Descending(s) && AllRated(s) && x.percent.Tenths?
    ensures Descending(Insert(s, x)) && AllRated(Insert(s, x))
    decreases |s|
  {
    if s != [] {
      var init, y := s[..|s| - 1], s[|s| - 1];
      if Before(x, y) {
        InsertDescending(init, x);
        var r := Insert(init, x);
        InsertPermutes(init, x);
        assert multiset(r) == multiset(init) + multiset{x};
        forall z | z in r ensures !Before(y, z) {
          assert z in multiset(r);
          if z != x {
            assert z in multiset(init);
            var i :| 0 <= i < |init| && init[i] == z;
            assert s[i] == z;
          }
        }
        AppendDescending(r, y);
      } else {
        forall i | 0 <= i < |s| ensures !Before(x, s[i]) {
          if i < |s| - 1 {
            assert !Before(y, s[i]);
          }
        }
        AppendDescending(s, x);
      }
    }
  }

  lemma AppendDescending(s: seq<Coverage>, y: Coverage)
    requires Descending(s) && AllRated(s) && y.percent.Tenths?
    requires forall z :: z in s ==> !Before(y, z)
    ensures Descending(s + [y]) && AllRated(s + [y])
  {
    var r := s + [y];
    forall i, j | 0 <= i < j < |r| ensures !Before(r[j], r[i]) {
      if j < |s| {
        assert r[i] == s[i] && r[j] == s[j];
      } else {
        assert r[i] in s;
      }
    }
  }

  /** When every entry has a figure, the result is in non-increasing order of it. */
  lemma {:induction false} SortedDescending(xs: seq<Coverage>)
    requires AllRated(xs)
    ensures Descending(SortedByPercent(xs)) && AllRated(SortedByPercent(xs))
    decreases |xs|
  {
    if xs != [] {
      var init := xs[..|xs| - 1];
      assert AllRated(init);
      SortedDescending(init);
      InsertDescending(SortedByPercent(init), xs[|xs| - 1]);
    }
  }

  /** The entries with a given figure, in order. */
  function WithPercent(s: seq<Coverage>, p: Percent): seq<Coverage>
  {
    if s == [] then []
    else WithPercent(s[..|s| - 1], p) + (if s[|s| - 1].percent == p then [s[|s| - 1]] else [])
  }

  lemma {:induction false} WithPercentAppend(a: seq<Coverage>, b: seq<Coverage>, p: Percent)
    ensures WithPercent(a + b, p) == WithPercent(a, p) + WithPercent(b, p)
    decreases |b|
  {
    if b == [] {
      assert a + b == a;
    } else {
      var binit := b[..|b| - 1];
      assert (a + b)[..|a + b| - 1] == a + binit;
      WithPercentAppend(a, binit, p);
    }
  }

  lemma {:induction false} InsertStable(s: seq<Coverage>, x: Coverage, p: Percent)
    ensures WithPercent(Insert(s, x), p) == WithPercent(s, p) + WithPercent([x], p)
    decreases |s|
  {
    if s == [] {
      assert Insert(s, x) == [x];
      assert WithPercent(s, p) == [];
    } else if Before(x, s[|s| - 1]) {
      var init, y := s[..|s| - 1], s[|s| - 1];
      InsertStable(init, x, p);
      InsertPasses(init, x, y, p);
    } else {
      assert Insert(s, x) == s + [x];
      WithPercentAppend(s, [x], p);
    }
  }

  /** The step where `x` moves left past `y`. */
  lemma InsertPasses(init: seq<Coverage>, x: Coverage, y: Coverage, p: Percent)
    requires Before(x, y)
    requires WithPercent(Insert(init, x), p) == WithPercent(init, p) + WithPercent([x], p)
    ensures WithPercent(Insert(init + [y], x), p) == WithPercent(init + [y], p) + WithPercent([x], p)
  {
    var s := init + [y];
    assert Insert(s, x) == Insert(init, x) + [y] by {
      assert s[..|s| - 1] == init && s[|s| - 1] == y;
    }
    var a, xs, ys := WithPercent(init, p), WithPercent([x], p), WithPercent([y], p);
    assert WithPercent(Insert(s, x), p) == (a + xs) + ys by {
      WithPercentAppend(Insert(init, x), [y], p);
    }
    assert WithPercent(s, p) == a + ys by {
      WithPercentAppend(init, [y], p);
    }
    assert xs + ys == ys + xs by {
      PassedTie(x, y, p);
    }
    SwapTail(a, xs, ys);
  }

  lemma SwapTail(a: seq<Coverage>, xs: seq<Coverage>, ys: seq<Coverage>)
    requires xs + ys == ys + xs
    ensures (a + xs) + ys == (a + ys) + xs
  {
    assert (a + xs) + ys == a + (xs + ys);
    assert (a + ys) + xs == a + (ys + xs);
  }

  /** `x` never passes an element with its own figure, so the two singletons commute. */
  lemma PassedTie(x: Coverage, y: Coverage, p: Percent)
    requires Before(x, y)
    ensures WithPercent([x], p) + WithPercent([y], p) == WithPercent([y], p) + WithPercent([x], p)
  {
    Single(x, p);
    Single(y, p);
  }

  lemma Single(x: Coverage, p: Percent)
    ensures WithPercent([x], p) == if x.percent == p then [x] else []
  {
    assert [x][..0] == [];
  }

  /** Stability: entries with equal figures keep their input (directory listing) order. */
  lemma {:induction false} SortedStable(xs: seq<Coverage>, p: Percent)
    ensures WithPercent(SortedByPercent(xs), p) == WithPercent(xs, p)
    decreases |xs|
  {
    if xs != [] {
      var init := xs[..|xs| - 1];
      SortedStable(init, p);
      InsertStable(SortedByPercent(init), xs[|xs| - 1], p);
    }
  }

  /** An empty reference makes every figure `NaN`: every comparison is a tie and the
      stable sort keeps the listing order. */
  lemma {:induction false} AllNaNUnchanged(xs: seq<Coverage>)
    requires forall i :: 0 <= i < |xs| ==> xs[i].percent.NaN?
    ensures SortedByPercent(xs) == xs
    decreases |xs|
  {
    if xs != [] {
      var init := xs[..|xs| - 1];
      AllNaNUnchanged(init);
      assert init + [xs[|xs| - 1]] == xs;
    }
  }

  /** The results for one reference all have a figure, or all have `NaN`. */
  lemma SameKind(reference: seq<string>, scans: seq<Scan>)
    ensures var rs := Results(reference, scans);
      (|reference| > 0 ==> AllRated(rs)) && (|reference| == 0 ==> forall i :: 0 <= i < |rs| ==> rs[i].percent.NaN?)
  {
    ResultsEach(reference, scans);
  }

  // ---------------------------------------------------------------------------
  // The whole comparison

  /** `results` after the loop: one entry per file, in listing order. */
  function Results(reference: seq<string>, scans: seq<Scan>): seq<Coverage>
    decreases |scans|
  {
    if scans == [] then []
    else Results(reference, scans[..|scans| - 1]) + [CoverageOf(reference, scans[|scans| - 1])]
  }

  lemma {:induction false} ResultsLength(reference: seq<string>, scans: seq<Scan>)
    ensures |Results(reference, scans)| == |scans|
    decreases |scans|
  {
    if scans != [] { ResultsLength(reference, scans[..|scans| - 1]); }
  }

  lemma {:induction false} ResultsAt(reference: seq<string>, scans: seq<Scan>, i: nat)
    requires i < |scans|
    ensures |Results(reference, scans)| == |scans|
    ensures Results(reference, scans)[i] == CoverageOf(reference, scans[i])
    decreases |scans|
  {
    var init := scans[..|scans| - 1];
    ResultsLength(reference, init);
    if i < |init| {
      ResultsAt(reference, init, i);
      assert init[i] == scans[i];
    }
  }

  lemma ResultsEach(reference: seq<string>, scans: seq<Scan>)
    ensures |Results(reference, scans)| == |scans|
    ensures forall i :: 0 <= i < |scans| ==> Results(reference, scans)[i] == CoverageOf(reference, scans[i])
  {
    ResultsLength(reference, scans);
    forall i | 0 <= i < |scans| ensures Results(reference, scans)[i] == CoverageOf(reference, scans[i]) {
      ResultsAt(reference, scans, i);
    }
  }

  /** The sorted results for a reference text and a directory listing. */
  function Report(enContent: string, listing: seq<LocaleFile>): seq<Coverage> {
    SortedByPercent(Results(PathSet(enContent), ScanAll(Candidates(listing))))
  }

  /** The report holds the `i`-th candidate's result at position `i` before the sort,
      and for every figure the sort keeps the results with that figure in this listing
      order. */
  lemma ReportKeepsListingOrder(enContent: string, listing: seq<LocaleFile>, p: Percent)
    ensures var files := Candidates(listing);
      var results := Results(PathSet(enContent), ScanAll(files));
      && |results| == |files|
      && (forall i :: 0 <= i < |files| ==> results[i] == CoverageOf(PathSet(enContent), ScanOf(files[i])))
      && WithPercent(Report(enContent, listing), p) == WithPercent(results, p)
  {
    var files := Candidates(listing);
    ScanAllEach(files);
    ResultsEach(PathSet(enContent), ScanAll(files));
    SortedStable(Results(PathSet(enContent), ScanAll(files)), p);
  }

  /** Lines 87-113: parse the reference, then each candidate file, collect the results
      in listing order and sort them in place. */
  method CheckLocales(enContent: string, listing: seq<LocaleFile>) returns (report: seq<Coverage>)
    ensures report == Report(enContent, listing)
  {
    var enObj := ParseYaml(enContent);
    var enKeys := Dedup(AllKeyPaths(enObj));
    assert enKeys == PathSet(enContent);
    var results := CompareAll(enKeys, Candidates(listing));
    report := SortResults(results);
  }

  /** `results.sort(...)` on a fresh array holding `results`. */
  method SortResults(results: seq<Coverage>) returns (sorted: seq<Coverage>)
    ensures sorted == SortedByPercent(results)
  {
    var a := new Coverage[|results|](k requires 0 <= k < |results| => results[k]);
    assert a[..] == results;
    SortByPercent(a);
    sorted := a[..];
  }

  /** The loop of lines 96-111: one result per file, pushed in listing order. */
  method CompareAll(enKeys: seq<string>, files: seq<LocaleFile>) returns (results: seq<Coverage>)
    ensures results == Results(enKeys, ScanAll(files))
  {
    results := [];
    for i := 0 to |files|
      invariant results == Results(enKeys, ScanAll(files[..i]))
    {
      var scan := ScanFile(files[i]);
      var missing := MissingKeys(enKeys, scan.keys);
      ScanAllSnoc(files, i);
      ResultsSnoc(enKeys, ScanAll(files[..i]), scan);
      results := results + [Coverage(scan.name, |scan.keys|, |missing|, PercentOf(|enKeys|, |missing|), missing)];
    }
    assert files[..|files|] == files;
  }

  lemma ScanAllSnoc(files: seq<LocaleFile>, i: nat)
    requires i < |files|
    ensures ScanAll(files[..i + 1]) == ScanAll(files[..i]) + [ScanOf(files[i])]
  {
    assert files[..i + 1][..i] == files[..i];
  }

  lemma ResultsSnoc(reference: seq<string>, scans: seq<Scan>, s: Scan)
    ensures Results(reference, scans + [s]) == Results(reference, scans) + [CoverageOf(reference, s)]
  {
    assert (scans + [s])[..|scans|] == scans;
  }

  /** Read and parse one locale file. */
  method ScanFile(f: LocaleFile) returns (scan: Scan)
    ensures scan == ScanOf(f)
  {
    var obj := ParseYaml(f.content);
    scan := Scan(f.name, Dedup(AllKeyPaths(obj)));
  }

  /** Insertion sort in place; the result is the stable order `SortedByPercent`. */
  method SortByPercent(a: array<Coverage>)
    modifies a
    ensures a[..] == SortedByPercent(old(a[..]))
  {
    ghost var input := a[..];
    for i := 0 to a.Length
      invariant a[..i] == SortedByPercent(input[..i])
      invariant a[i..] == input[i..]
    {
      assert input[..i + 1] == input[..i] + [input[i]];
      InsertAt(a, i);
    }
    assert input[..a.Length] == input;
  }

  /** One pass of the outer loop: shift the larger neighbours of `a[i]` right and drop it in. */
  method InsertAt(a: array<Coverage>, i: nat)
    requires i < a.Length
    modifies a
    ensures a[..i + 1] == Insert(old(a[..i]), old(a[i]))
    ensures a[i + 1..] == old(a[i + 1..])
  {
    ghost var before := a[..];
    var j := ShiftIn(a, i);
    ghost var s := before[..i];
    assert s[..j] == before[..j] && s[j..] == before[j..i];
    InsertSplit(s, before[i], j);
    assert a[..] == (s[..j] + [before[i]] + s[j..]) + before[i + 1..];
    assert a[..i + 1] == a[..][..i + 1];
  }

  /** The inner loop: move every element that `a[i]` belongs before one place right and
      put `a[i]` in the hole at `j`. */
  method ShiftIn(a: array<Coverage>, i: nat) returns (j: nat)
    requires i < a.Length
    modifies a
    ensures j <= i
    ensures a[..] == old(a[..])[..j] + [old(a[i])] + old(a[..])[j..i] + old(a[..])[i + 1..]
    ensures j == 0 || !Before(old(a[i]), old(a[j - 1]))
    ensures forall k :: j <= k < i ==> Before(old(a[i]), old(a[k]))
  {
    var x := a[i];
    j := i;
    while j > 0 && Before(x, a[j - 1])
      invariant 0 <= j <= i
      invariant forall k :: 0 <= k < j ==> a[k] == old(a[k])
      invariant forall k :: j < k <= i ==> a[k] == old(a[k - 1])
      invariant forall k :: i < k < a.Length ==> a[k] == old(a[k])
      invariant forall k :: j <= k < i ==> Before(x, old(a[k]))
    {
      a[j] := a[j - 1];
      j := j - 1;
    }
    a[j] := x;
    ghost var r := old(a[..])[..j] + [x] + old(a[..])[j..i] + old(a[..])[i + 1..];
    assert |r| == a.Length;
    forall k | 0 <= k < a.Length ensures a[k] == r[k] {
      if k < j {
        assert r[k] == old(a[k]);
      } else if k == j {
        assert r[k] == x;
      } else if k <= i {
        assert r[k] == old(a[k - 1]);
      } else {
        assert r[k] == old(a[k]);
      }
    }
  }

  /** `x` lands after the prefix it does not belong before, ahead of the suffix it does. */
  lemma {:induction false} InsertSplit(s: seq<Coverage>, x: Coverage, j: nat)
    requires j <= |s| && (j == 0 || !Before(x, s[j - 1]))
    requires forall k :: j <= k < |s| ==> Before(x, s[k])
    ensures Insert(s, x) == s[..j] + [x] + s[j..]
    decreases |s|
  {
    if j < |s| {
      var init := s[..|s| - 1];
      InsertSplit(init, x, j);
      assert init[..j] == s[..j] && init[j..] + [s[|s| - 1]] == s[j..];
    } else {
      assert s[..j] == s;
    }
  }
}
