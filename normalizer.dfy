/** The normalizer, `clean_content` (consolidate_translations.py:35-44): the
    UTF-8 `ignore` round trip, the two run-collapsing substitutions and
    `str.strip()`. */
module Normalizer {
  import opened Basics

  // ---------------------------------------------------------------------
  // Step 1: `content.encode('utf-8', 'ignore').decode('utf-8')`

  predicate IsSurrogate(c: CodePoint)
  {
    0xD800 <= c <= 0xDFFF
  }

  predicate NoSurrogates(s: Text)
  {
    forall i :: 0 <= i < |s| ==> !IsSurrogate(s[i])
  }

  /** UTF-8 cannot encode a lone surrogate and `ignore` drops it; every other
      code point survives the round trip, in order. */
  function DropSurrogates(s: Text): Text
  {
    if s == [] then []
    else (if IsSurrogate(s[0]) then [] else [s[0]]) + DropSurrogates(s[1..])
  }

  /** The round trip removes exactly the surrogates: the result has none,
      and every other code point occurs as often as in the input. */
  lemma {:induction false} DropSurrogatesSpec(s: Text)
    ensures |DropSurrogates(s)| <= |s|
    ensures NoSurrogates(DropSurrogates(s))
    ensures forall x :: multiset(DropSurrogates(s))[x] == if IsSurrogate(x) then 0 else multiset(s)[x]
  {
    DropSurrogatesClean(s);
    DropSurrogatesCounts(s);
  }

  lemma {:induction false} DropSurrogatesClean(s: Text)
    ensures |DropSurrogates(s)| <= |s|
    ensures NoSurrogates(DropSurrogates(s))
  {
    if s != [] {
      DropSurrogatesClean(s[1..]);
      var head := if IsSurrogate(s[0]) then [] else [s[0]];
      var t := DropSurrogates(s[1..]);
      var r := head + t;
      forall i | 0 <= i < |r| ensures !IsSurrogate(r[i]) {
        if i >= |head| { assert r[i] == t[i - |head|]; }
      }
    }
  }

  lemma {:induction false} DropSurrogatesCounts(s: Text)
    ensures forall x :: multiset(DropSurrogates(s))[x] == if IsSurrogate(x) then 0 else multiset(s)[x]
  {
    if s != [] {
      DropSurrogatesCounts(s[1..]);
      assert s == [s[0]] + s[1..];
      assert multiset(s) == multiset{s[0]} + multiset(s[1..]);
    }
  }

  /** Text without surrogates comes through the round trip unchanged. */
  lemma {:induction false} DropSurrogatesIdentity(s: Text)
    requires NoSurrogates(s)
    ensures DropSurrogates(s) == s
  {
    if s != [] {
      DropSurrogatesIdentity(s[1..]);
      assert s == [s[0]] + s[1..];
    }
  }

  // ---------------------------------------------------------------------
  // Runs of one code point

  /** The length of the run of c at the start of s. */
  function LeadRun(s: Text, c: CodePoint): (k: nat)
    ensures k <= |s|
    ensures s[..k] == Rep(c, k)
    ensures k < |s| ==> s[k] != c
  {
    if s != [] && s[0] == c then
      var k := 1 + LeadRun(s[1..], c);
      assert s[..k] == [s[0]] + s[1..][..k - 1];
      k
    else 0
  }

  /** m copies of c start at position i of s. */
  predicate RunAt(s: Text, c: CodePoint, i: nat, m: nat)
    requires i + m <= |s|
  {
    s[i..i + m] == Rep(c, m)
  }

  /** s holds no m consecutive copies of c. */
  predicate NoRun(s: Text, c: CodePoint, m: nat)
  {
    forall i: nat :: i + m <= |s| ==> !RunAt(s, c, i, m)
  }

  lemma LeadRunUnique(s: Text, c: CodePoint, m: nat)
    requires m <= |s| && s[..m] == Rep(c, m)
    requires m < |s| ==> s[m] != c
    ensures LeadRun(s, c) == m
  {
  }

  lemma LeadRunSuffix(s: Text, c: CodePoint, j: nat)
    requires j <= LeadRun(s, c)
    ensures LeadRun(s[j..], c) == LeadRun(s, c) - j
  {
    var k := LeadRun(s, c);
    assert s[j..][..k - j] == s[..k][j..];
    LeadRunUnique(s[j..], c, k - j);
  }

  /** A text that starts with m copies of c has a leading run of at least m. */
  lemma LeadRunAtLeast(s: Text, c: CodePoint, m: nat)
    requires m <= |s| && s[..m] == Rep(c, m)
    ensures LeadRun(s, c) >= m
  {
  }

  /** A leading run of at least m copies of c is an m-run at position 0. */
  lemma RunAtStart(s: Text, c: CodePoint, m: nat)
    ensures m <= LeadRun(s, c) ==> RunAt(s, c, 0, m)
  {
    var k := LeadRun(s, c);
    if m <= k {
      assert s[..m] == s[..k][..m];
    }
  }

  lemma NoRunSlice(s: Text, c: CodePoint, m: nat, a: nat, b: nat)
    requires NoRun(s, c, m) && a <= b <= |s|
    ensures NoRun(s[a..b], c, m)
  {
    var t := s[a..b];
    forall i: nat | i + m <= |t| ensures !RunAt(t, c, i, m) {
      var w, v := t[i..i + m], s[a + i..a + i + m];
      forall q | 0 <= q < m ensures w[q] == v[q] {
        assert t[i + q] == s[a + i + q];
      }
      assert w == v;
      assert !RunAt(s, c, a + i, m);
    }
  }

  /** Prefixing a text free of m-runs of c with code points other than c
      creates no such run. */
  lemma NoRunAfterForeign(p: Text, u: Text, c: CodePoint, m: nat)
    requires m >= 1
    requires forall i :: 0 <= i < |p| ==> p[i] != c
    requires NoRun(u, c, m)
    ensures NoRun(p + u, c, m)
  {
    var t := p + u;
    forall i: nat | i + m <= |t| ensures !RunAt(t, c, i, m) {
      if i < |p| {
        assert t[i..i + m][0] == p[i];
      } else {
        assert t[i..i + m] == u[i - |p|..i - |p| + m];
        assert !RunAt(u, c, i - |p|, m);
      }
    }
  }

  /** A run of c shorter than m, followed by a text that does not start with
      c and has no m-run of c, creates no m-run of c. */
  lemma NoRunAfterShortRun(j: nat, u: Text, c: CodePoint, m: nat)
    requires j < m
    requires u == [] || u[0] != c
    requires NoRun(u, c, m)
    ensures NoRun(Rep(c, j) + u, c, m)
  {
    var t := Rep(c, j) + u;
    forall i: nat | i + m <= |t| ensures !RunAt(t, c, i, m) {
      if i < j {
        assert t[i..i + m][j - i] == u[0];
      } else {
        assert t[i..i + m] == u[i - j..i - j + m];
        assert !RunAt(u, c, i - j, m);
      }
    }
  }

  /** The length of the run of c at the end of s. */
  function TrailRun(s: Text, c: CodePoint): (k: nat)
    ensures k <= |s|
    ensures s[|s| - k..] == Rep(c, k)
    ensures k < |s| ==> s[|s| - k - 1] != c
  {
    if s != [] && s[|s| - 1] == c then
      var init := s[..|s| - 1];
      var k := 1 + TrailRun(init, c);
      TrailRunStep(s, c, k);
      k
    else 0
  }

  /** Extending the trailing run of the text without its last code point by
      that code point. */
  lemma TrailRunStep(s: Text, c: CodePoint, k: nat)
    requires 1 <= k <= |s| && s[|s| - 1] == c
    requires s[..|s| - 1][|s| - k..] == Rep(c, k - 1)
    ensures s[|s| - k..] == Rep(c, k)
  {
    var j := |s| - k;
    assert s[j..] == s[..|s| - 1][j..] + [c];
  }

  lemma TrailRunUnique(s: Text, c: CodePoint, m: nat)
    requires m <= |s| && s[|s| - m..] == Rep(c, m)
    requires m < |s| ==> s[|s| - m - 1] != c
    ensures TrailRun(s, c) == m
  {
  }

  /** A text that is not a run of c throughout decides the leading run of
      anything it starts. */
  lemma LeadRunConcat(a: Text, b: Text, c: CodePoint)
    requires LeadRun(a, c) < |a|
    ensures LeadRun(a + b, c) == LeadRun(a, c)
  {
    var k := LeadRun(a, c);
    assert (a + b)[..k] == a[..k];
    LeadRunUnique(a + b, c, k);
  }

  /** A text that is not a run of c throughout decides the trailing run of
      anything it ends. */
  lemma TrailRunConcat(a: Text, b: Text, c: CodePoint)
    requires TrailRun(b, c) < |b|
    ensures TrailRun(a + b, c) == TrailRun(b, c)
  {
    var k := TrailRun(b, c);
    var t := a + b;
    assert t[|t| - k..] == b[|b| - k..];
    assert t[|t| - k - 1] == b[|b| - k - 1];
    TrailRunUnique(t, c, k);
  }

  /** Joining two texts free of m-runs of c creates none when the run of c
      at the seam, the end of the one plus the start of the other, is shorter
      than m. */
  lemma NoRunJoin(a: Text, b: Text, c: CodePoint, m: nat)
    requires NoRun(a, c, m) && NoRun(b, c, m)
    requires TrailRun(a, c) + LeadRun(b, c) < m
    ensures NoRun(a + b, c, m)
  {
    forall i: nat | i + m <= |a + b| ensures !RunAt(a + b, c, i, m) {
      if i + m <= |a| {
        RunAtLeft(a, b, c, i, m);
      } else if i >= |a| {
        RunAtRight(a, b, c, i, m);
      } else {
        RunAtSeam(a, b, c, i, m);
      }
    }
  }

  /** A window inside the first text of a join is a window of that text. */
  lemma RunAtLeft(a: Text, b: Text, c: CodePoint, i: nat, m: nat)
    requires NoRun(a, c, m) && i + m <= |a|
    ensures !RunAt(a + b, c, i, m)
  {
    assert (a + b)[i..i + m] == a[i..i + m];
    assert !RunAt(a, c, i, m);
  }

  /** A window inside the second text of a join is a window of that text. */
  lemma RunAtRight(a: Text, b: Text, c: CodePoint, i: nat, m: nat)
    requires NoRun(b, c, m) && |a| <= i && i + m <= |a + b|
    ensures !RunAt(a + b, c, i, m)
  {
    assert (a + b)[i..i + m] == b[i - |a|..i - |a| + m];
    assert !RunAt(b, c, i - |a|, m);
  }

  /** A window across the seam holds the code point that ends the trailing
      run of the first text or the one that ends the leading run of the
      second. */
  lemma RunAtSeam(a: Text, b: Text, c: CodePoint, i: nat, m: nat)
    requires TrailRun(a, c) + LeadRun(b, c) < m
    requires i < |a| < i + m <= |a + b|
    ensures !RunAt(a + b, c, i, m)
  {
    var ta, lb := TrailRun(a, c), LeadRun(b, c);
    if |a| - i > ta {
      var p := |a| - ta - 1;
      RunAtHolds(a + b, c, i, m, p);
      assert (a + b)[p] == a[p];
    } else {
      var p := |a| + lb;
      RunAtHolds(a + b, c, i, m, p);
      assert (a + b)[p] == b[lb];
    }
  }

  /** Every position of an m-run holds c. */
  lemma RunAtHolds(t: Text, c: CodePoint, i: nat, m: nat, p: nat)
    requires i <= p < i + m <= |t|
    ensures RunAt(t, c, i, m) ==> t[p] == c
  {
    if RunAt(t, c, i, m) {
      assert t[i..i + m][p - i] == t[p];
    }
  }

  /** A text without m-runs has no longer runs either. */
  lemma NoRunLonger(s: Text, c: CodePoint, m: nat, m': nat)
    requires NoRun(s, c, m) && m <= m'
    ensures NoRun(s, c, m')
  {
    forall i: nat | i + m' <= |s| ensures !RunAt(s, c, i, m') {
      assert !RunAt(s, c, i, m);
      assert s[i..i + m] == s[i..i + m'][..m];
    }
  }

  // ---------------------------------------------------------------------
  // Steps 2 and 3: `re.sub(r'\n{3,}', '\n\n', ...)` and `re.sub(r'  +', ' ', ...)`

  /** `re.sub(P, repl, s)` for the pattern P = c{min,}: scanning left to
      right, where a run of at least `min` copies of c begins the greedy
      match takes the whole run and is replaced by `repl`; elsewhere the
      code point is copied and the scan moves on by one. */
  function SubRuns(s: Text, c: CodePoint, min: nat, repl: Text): Text
    requires min >= 1
    decreases |s|
  {
    if s == [] then []
    else
      var k := LeadRun(s, c);
      if k >= min then repl + SubRuns(s[k..], c, min, repl)
      else [s[0]] + SubRuns(s[1..], c, min, repl)
  }

  /** Every maximal run of c is cut down to at most n - 1 copies; runs
      shorter than n and all other code points are kept. */
  function CapRuns(s: Text, c: CodePoint, n: nat): Text
    requires n >= 1
    decreases |s|
  {
    if s == [] then []
    else if s[0] != c then [s[0]] + CapRuns(s[1..], c, n)
    else
      var k := LeadRun(s, c);
      Rep(c, if k < n then k else n - 1) + CapRuns(s[k..], c, n)
  }

  /** Inside a run shorter than `min` the substitution copies code points
      one at a time up to the end of the run. */
  lemma {:induction false} SubRunsShortRun(s: Text, c: CodePoint, min: nat, repl: Text, r: nat)
    requires min >= 1 && r <= LeadRun(s, c) < min
    ensures SubRuns(s, c, min, repl) == s[..r] + SubRuns(s[r..], c, min, repl)
    decreases r
  {
    if r > 0 {
      var u, rest := s[1..], SubRuns(s[r..], c, min, repl);
      calc {
        SubRuns(s, c, min, repl);
      == { SubRunsCopies(s, c, min, repl); }
        [s[0]] + SubRuns(u, c, min, repl);
      == { LeadRunSuffix(s, c, 1);
           SubRunsShortRun(u, c, min, repl, r - 1);
           assert u[r - 1..] == s[r..]; }
        [s[0]] + (u[..r - 1] + rest);
      == { assert u[..r - 1] == s[1..r]; }
        ([s[0]] + s[1..r]) + rest;
      == { assert s[..r] == [s[0]] + s[1..r]; }
        s[..r] + rest;
      }
    } else {
      assert s[..0] == [] && s[0..] == s;
    }
  }

  /** Where no match begins, the scan copies one code point and moves on. */
  lemma SubRunsCopies(t: Text, c: CodePoint, min: nat, repl: Text)
    requires min >= 1 && t != [] && LeadRun(t, c) < min
    ensures SubRuns(t, c, min, repl) == [t[0]] + SubRuns(t[1..], c, min, repl)
  {
  }

  /** The regular-expression substitution replacing runs of at least n by
      n - 1 copies is exactly the run-capping function. */
  lemma {:induction false} SubRunsIsCapRuns(s: Text, c: CodePoint, n: nat)
    requires n >= 1
    ensures SubRuns(s, c, n, Rep(c, n - 1)) == CapRuns(s, c, n)
    decreases |s|
  {
    if s != [] {
      var k := LeadRun(s, c);
      if k >= n {
        SubRunsIsCapRuns(s[k..], c, n);
      } else if s[0] == c {
        SubRunsShortRun(s, c, n, Rep(c, n - 1), k);
        SubRunsIsCapRuns(s[k..], c, n);
      } else {
        SubRunsIsCapRuns(s[1..], c, n);
      }
    }
  }

  lemma {:induction false} CapRunsLength(s: Text, c: CodePoint, n: nat)
    requires n >= 1
    ensures |CapRuns(s, c, n)| <= |s|
    decreases |s|
  {
    if s != [] {
      if s[0] != c {
        CapRunsLength(s[1..], c, n);
      } else {
        CapRunsLength(s[LeadRun(s, c)..], c, n);
      }
    }
  }

  /** The first code point of a capped text is that of the input. */
  lemma CapRunsHead(s: Text, c: CodePoint, n: nat)
    requires n >= 2 && s != []
    ensures CapRuns(s, c, n) != [] && CapRuns(s, c, n)[0] == s[0]
  {
  }

  /** After capping there is no run of n copies of c. */
  lemma {:induction false} CapRunsNoRun(s: Text, c: CodePoint, n: nat)
    requires n >= 1
    ensures NoRun(CapRuns(s, c, n), c, n)
    decreases |s|
  {
    if s != [] {
      if s[0] != c {
        CapRunsNoRun(s[1..], c, n);
        NoRunAfterForeign([s[0]], CapRuns(s[1..], c, n), c, n);
      } else {
        var k := LeadRun(s, c);
        var u := CapRuns(s[k..], c, n);
        CapRunsNoRun(s[k..], c, n);
        if u != [] {
          assert s[k..] != [];
          if n >= 2 { CapRunsHead(s[k..], c, n); }
        }
        NoRunAfterShortRun(if k < n then k else n - 1, u, c, n);
      }
    }
  }

  /** Text with no run of n copies of c is left unchanged. */
  lemma {:induction false} CapRunsIdentity(s: Text, c: CodePoint, n: nat)
    requires n >= 1 && NoRun(s, c, n)
    ensures CapRuns(s, c, n) == s
    decreases |s|
  {
    if s != [] {
      var k := if s[0] != c then 1 else LeadRun(s, c);
      if s[0] == c {
        RunAtStart(s, c, n);
        assert k < n by {
          if n <= |s| { assert !RunAt(s, c, 0, n); }
        }
        assert CapRuns(s, c, n) == s[..k] + CapRuns(s[k..], c, n);
      } else {
        assert CapRuns(s, c, n) == s[..1] + CapRuns(s[1..], c, n);
      }
      NoRunSlice(s, c, n, k, |s|);
      assert s[k..|s|] == s[k..];
      CapRunsIdentity(s[k..], c, n);
      assert s == s[..k] + s[k..];
    }
  }

  /** One step of the capping: the first run of c (or the first other code
      point), what it becomes, and the rest of the text. */
  lemma CapRunsStep(s: Text, c: CodePoint, n: nat) returns (k: nat, head: Text)
    requires n >= 1 && s != []
    ensures 0 < k <= |s| && s == s[..k] + s[k..]
    ensures s[0] != c ==> k == 1 && head == [s[0]] && s[..k] == [s[0]]
    ensures s[0] == c ==> k == LeadRun(s, c) && s[..k] == Rep(c, k)
                          && head == Rep(c, if k < n then k else n - 1)
    ensures CapRuns(s, c, n) == head + CapRuns(s[k..], c, n)
  {
    if s[0] != c {
      k, head := 1, [s[0]];
    } else {
      k := LeadRun(s, c);
      head := Rep(c, if k < n then k else n - 1);
    }
  }

  /** Copies of c hold no other code point. */
  lemma RepHoldsOnly(c: CodePoint, j: nat, x: CodePoint)
    requires x != c
    ensures multiset(Rep(c, j))[x] == 0
  {
    assert x !in Rep(c, j);
  }

  /** Capping the runs of c leaves the count of every other code point. */
  lemma {:induction false} CapRunsKeepsOthers(s: Text, c: CodePoint, n: nat, x: CodePoint)
    requires n >= 1 && x != c
    ensures multiset(CapRuns(s, c, n))[x] == multiset(s)[x]
    decreases |s|
  {
    if s != [] {
      var k, first := CapRunsStep(s, c, n);
      CapRunsKeepsOthers(s[k..], c, n, x);
      if s[0] == c {
        RepHoldsOnly(c, k, x);
        RepHoldsOnly(c, if k < n then k else n - 1, x);
      }
      var pre: Text := s[..k];
      var post: Text := s[k..];
      var mFirst: multiset<CodePoint> := multiset(first);
      var mPre: multiset<CodePoint> := multiset(pre);
      assert mFirst[x] == mPre[x];
      assert multiset(s) == multiset(pre) + multiset(post);
    }
  }

  /** Capping the runs of c keeps only code points of its input. */
  lemma {:induction false} CapRunsChars(s: Text, c: CodePoint, n: nat)
    requires n >= 1
    ensures forall x :: x in CapRuns(s, c, n) ==> x in s
    decreases |s|
  {
    if s != [] {
      var k := if s[0] != c then 1 else LeadRun(s, c);
      CapRunsChars(s[k..], c, n);
      assert s == s[..k] + s[k..];
      if s[0] == c {
        var j := if k < n then k else n - 1;
        assert forall y :: y in Rep(c, j) ==> y == s[0];
      }
    }
  }

  /** When c and d differ, capping the runs of c copies a leading run of d. */
  lemma {:induction false} CapRunsCopiesRun(s: Text, c: CodePoint, n: nat, d: CodePoint)
    requires n >= 1 && c != d
    ensures CapRuns(s, c, n) == s[..LeadRun(s, d)] + CapRuns(s[LeadRun(s, d)..], c, n)
    decreases |s|
  {
    var l := LeadRun(s, d);
    if l > 0 {
      var k, head := CapRunsStep(s, c, n);
      LeadRunSuffix(s, d, 1);
      CapRunsCopiesRun(s[1..], c, n, d);
      assert s[1..][..l - 1] == s[1..l];
      assert s[1..][l - 1..] == s[l..];
      assert s[..l] == [s[0]] + s[1..l];
    } else {
      assert s[..0] == [] && s[0..] == s;
    }
  }

  /** When the runs of c are capped at a length of at least one, no run of
      another code point d grows. */
  lemma {:induction false} CapRunsPreservesNoRun(s: Text, c: CodePoint, n: nat, d: CodePoint, m: nat)
    requires n >= 2 && m >= 1 && c != d
    requires NoRun(s, d, m)
    ensures NoRun(CapRuns(s, c, n), d, m)
    decreases |s|
  {
    if s != [] {
      if s[0] == d {
        var l := LeadRun(s, d);
        RunAtStart(s, d, m);
        NoRunSlice(s, d, m, l, |s|);
        assert s[l..|s|] == s[l..];
        CapRunsPreservesNoRun(s[l..], c, n, d, m);
        CapRunsCopiesRun(s, c, n, d);
        var u := CapRuns(s[l..], c, n);
        if u != [] {
          CapRunsHead(s[l..], c, n);
        }
        NoRunAfterShortRun(l, u, d, m);
      } else {
        var k := if s[0] != c then 1 else LeadRun(s, c);
        NoRunSlice(s, d, m, k, |s|);
        assert s[k..|s|] == s[k..];
        CapRunsPreservesNoRun(s[k..], c, n, d, m);
        var p := if s[0] != c then [s[0]] else Rep(c, if k < n then k else n - 1);
        assert forall i :: 0 <= i < |p| ==> p[i] != d;
        NoRunAfterForeign(p, CapRuns(s[k..], c, n), d, m);
      }
    }
  }

  // ---------------------------------------------------------------------
  // Step 4: `str.strip()`

  function TrimStart(s: Text): Text
  {
    if s != [] && IsSpace(s[0]) then TrimStart(s[1..]) else s
  }

  function TrimEnd(s: Text): Text
  {
    if s != [] && IsSpace(s[|s| - 1]) then TrimEnd(s[..|s| - 1]) else s
  }

  /** `lstrip` drops the longest whitespace prefix: what remains is a suffix
      that does not start with whitespace. */
  lemma {:induction false} TrimStartSpec(s: Text)
    ensures |TrimStart(s)| <= |s| && TrimStart(s) == s[|s| - |TrimStart(s)|..]
    ensures forall i :: 0 <= i < |s| - |TrimStart(s)| ==> IsSpace(s[i])
    ensures TrimStart(s) == [] || !IsSpace(TrimStart(s)[0])
  {
    if s != [] && IsSpace(s[0]) {
      TrimStartSpec(s[1..]);
      var r := TrimStart(s[1..]);
      assert s[1..][|s| - 1 - |r|..] == s[|s| - |r|..];
      forall i | 0 < i < |s| - |r| ensures IsSpace(s[i]) {
        assert s[i] == s[1..][i - 1];
      }
    }
  }

  /** `rstrip` drops the longest whitespace suffix: what remains is a prefix
      that does not end with whitespace. */
  lemma {:induction false} TrimEndSpec(s: Text)
    ensures |TrimEnd(s)| <= |s| && TrimEnd(s) == s[..|TrimEnd(s)|]
    ensures forall i :: |TrimEnd(s)| <= i < |s| ==> IsSpace(s[i])
    ensures TrimEnd(s) == [] || !IsSpace(TrimEnd(s)[|TrimEnd(s)| - 1])
  {
    if s != [] && IsSpace(s[|s| - 1]) {
      var init := s[..|s| - 1];
      TrimEndSpec(init);
      var r := TrimEnd(init);
      assert init[..|r|] == s[..|r|];
      forall i | |r| <= i < |s| - 1 ensures IsSpace(s[i]) {
        assert s[i] == init[i];
      }
    }
  }

  /** Neither end of the text is whitespace. */
  predicate Trimmed(s: Text)
  {
    s == [] || (!IsSpace(s[0]) && !IsSpace(s[|s| - 1]))
  }

  function Strip(s: Text): Text
  {
    TrimEnd(TrimStart(s))
  }

  /** `strip` removes the longest whitespace prefix and suffix and nothing
      else: the result is the slice s[a..b] between them. */
  lemma StripSpec(s: Text) returns (a: nat, b: nat)
    ensures a <= b <= |s| && Strip(s) == s[a..b]
    ensures forall i :: 0 <= i < a ==> IsSpace(s[i])
    ensures forall i :: b <= i < |s| ==> IsSpace(s[i])
    ensures Trimmed(Strip(s))
  {
    var t := TrimStart(s);
    var r := TrimEnd(t);
    TrimStartSpec(s);
    TrimEndSpec(t);
    a := |s| - |t|;
    b := a + |r|;
    assert r == s[a..][..|r|];
    forall i | b <= i < |s| ensures IsSpace(s[i]) {
      assert s[i] == t[i - a];
    }
  }

  /** `strip` leaves a trimmed text alone. */
  lemma StripIdentity(s: Text)
    requires Trimmed(s)
    ensures Strip(s) == s
  {
  }

  // ---------------------------------------------------------------------
  // `clean_content`

  /** The two collapse steps of lines 41-42. */
  function Collapse(s: Text): Text
  {
    SubRuns(SubRuns(s, LF, 3, [LF, LF]), SP, 2, [SP])
  }

  function CleanContent(content: Text): Text
  {
    Strip(Collapse(DropSurrogates(content)))
  }

  /** The collapse steps cap blank-line runs and space runs and nothing else. */
  lemma CollapseIsCapping(s: Text)
    ensures Collapse(s) == CapRuns(CapRuns(s, LF, 3), SP, 2)
  {
    assert [LF, LF] == Rep(LF, 2);
    assert [SP] == Rep(SP, 1);
    SubRunsIsCapRuns(s, LF, 3);
    SubRunsIsCapRuns(CapRuns(s, LF, 3), SP, 2);
  }

  /** The collapse steps leave every code point other than the newline and
      the space (tabs included) as often as it was. */
  lemma CollapseKeepsOthers(s: Text, x: CodePoint)
    requires x != LF && x != SP
    ensures multiset(Collapse(s))[x] == multiset(s)[x]
  {
    CollapseIsCapping(s);
    CapRunsKeepsOthers(s, LF, 3, x);
    CapRunsKeepsOthers(CapRuns(s, LF, 3), SP, 2, x);
  }

  /** What the normalized text guarantees: no three consecutive newlines, no
      two consecutive spaces, no surrogates, no whitespace at either end,
      and no more code points than the input. */
  lemma CleanContentSpec(content: Text)
    ensures |CleanContent(content)| <= |content|
    ensures NoRun(CleanContent(content), LF, 3)
    ensures NoRun(CleanContent(content), SP, 2)
    ensures NoSurrogates(CleanContent(content))
    ensures Trimmed(CleanContent(content))
  {
    var t0 := DropSurrogates(content);
    DropSurrogatesSpec(content);
    CollapseIsCapping(t0);
    var t1 := CapRuns(t0, LF, 3);
    var t2 := CapRuns(t1, SP, 2);
    CapRunsLength(t0, LF, 3);
    CapRunsLength(t1, SP, 2);
    CapRunsNoRun(t0, LF, 3);
    CapRunsPreservesNoRun(t1, SP, 2, LF, 3);
    CapRunsNoRun(t1, SP, 2);
    CapRunsChars(t0, LF, 3);
    CapRunsChars(t1, SP, 2);
    var a, b := StripSpec(t2);
    NoRunSlice(t2, LF, 3, a, b);
    NoRunSlice(t2, SP, 2, a, b);
    var r := CleanContent(content);
    forall i | 0 <= i < |r| ensures !IsSurrogate(r[i]) {
      assert r[i] == t2[a + i];
      assert t2[a + i] in t2;
    }
  }

  /** Normalizing twice is normalizing once. */
  lemma CleanContentIdempotent(content: Text)
    ensures CleanContent(CleanContent(content)) == CleanContent(content)
  {
    var r := CleanContent(content);
    CleanContentSpec(content);
    DropSurrogatesIdentity(r);
    CollapseIsCapping(r);
    CapRunsIdentity(r, LF, 3);
    CapRunsIdentity(r, SP, 2);
    StripIdentity(r);
  }

  /** A prefix free of c passes through the capping unchanged. */
  lemma {:induction false} CapRunsForeignPrefix(p: Text, q: Text, c: CodePoint, n: nat)
    requires n >= 1 && forall i :: 0 <= i < |p| ==> p[i] != c
    ensures CapRuns(p + q, c, n) == p + CapRuns(q, c, n)
  {
    if p != [] {
      var t := p + q;
      calc {
        CapRuns(t, c, n);
      == { assert t[0] == p[0] != c; }
        [p[0]] + CapRuns(t[1..], c, n);
      == { assert t[1..] == p[1..] + q; CapRunsForeignPrefix(p[1..], q, c, n); }
        [p[0]] + (p[1..] + CapRuns(q, c, n));
      == { assert p == [p[0]] + p[1..]; }
        p + CapRuns(q, c, n);
      }
    } else {
      assert p + q == q;
    }
  }

  /** A leading run of exactly k copies is capped at n - 1. */
  lemma CapRunsLeadingRun(k: nat, rest: Text, c: CodePoint, n: nat)
    requires n >= 1 && k >= 1 && (rest != [] ==> rest[0] != c)
    ensures CapRuns(Rep(c, k) + rest, c, n) == Rep(c, if k < n then k else n - 1) + CapRuns(rest, c, n)
  {
    var s := Rep(c, k) + rest;
    assert s[..k] == Rep(c, k) && s[k..] == rest;
    LeadRunUnique(s, c, k);
  }

  /** Worked example, first substitution: four newlines become two. */
  lemma ExampleNewlines()
    ensures CapRuns([0x61, LF, LF, LF, LF, 0x62, SP, SP, SP, 0x63], LF, 3) == [0x61, LF, LF, 0x62, SP, SP, SP, 0x63]
  {
    var tail: Text := [0x62, SP, SP, SP, 0x63];
    calc {
      CapRuns([0x61, LF, LF, LF, LF, 0x62, SP, SP, SP, 0x63], LF, 3);
    == { assert [0x61, LF, LF, LF, LF, 0x62, SP, SP, SP, 0x63] == [0x61] + (Rep(LF, 4) + tail); }
      CapRuns([0x61] + (Rep(LF, 4) + tail), LF, 3);
    == { CapRunsForeignPrefix([0x61], Rep(LF, 4) + tail, LF, 3); }
      [0x61] + CapRuns(Rep(LF, 4) + tail, LF, 3);
    == { CapRunsLeadingRun(4, tail, LF, 3); }
      [0x61] + (Rep(LF, 2) + CapRuns(tail, LF, 3));
    == { CapRunsForeignPrefix(tail, [], LF, 3); assert tail + [] == tail; }
      [0x61] + (Rep(LF, 2) + tail);
    == { assert Rep(LF, 2) == [LF, LF]; }
      [0x61, LF, LF, 0x62, SP, SP, SP, 0x63];
    }
  }

  /** Worked example, second substitution: three spaces become one. */
  lemma ExampleSpaces()
    ensures CapRuns([0x61, LF, LF, 0x62, SP, SP, SP, 0x63], SP, 2) == [0x61, LF, LF, 0x62, SP, 0x63]
  {
    var head: Text := [0x61, LF, LF, 0x62];
    calc {
      CapRuns([0x61, LF, LF, 0x62, SP, SP, SP, 0x63], SP, 2);
    == { assert [0x61, LF, LF, 0x62, SP, SP, SP, 0x63] == head + (Rep(SP, 3) + [0x63]); }
      CapRuns(head + (Rep(SP, 3) + [0x63]), SP, 2);
    == { CapRunsForeignPrefix(head, Rep(SP, 3) + [0x63], SP, 2); }
      head + CapRuns(Rep(SP, 3) + [0x63], SP, 2);
    == { CapRunsLeadingRun(3, [0x63], SP, 2); }
      head + (Rep(SP, 1) + CapRuns([0x63], SP, 2));
    == { CapRunsForeignPrefix([0x63], [], SP, 2); assert [0x63] + [] == [0x63]; }
      head + (Rep(SP, 1) + [0x63]);
    == { assert Rep(SP, 1) == [SP]; }
      [0x61, LF, LF, 0x62, SP, 0x63];
    }
  }

  /** `clean_content("a\n\n\n\nb   c")` is `"a\n\nb c"`: the blank-line
      run is cut to one blank line and the space run to one space. */
  lemma CleanContentExample()
    ensures CleanContent([0x61, LF, LF, LF, LF, 0x62, SP, SP, SP, 0x63]) == [0x61, LF, LF, 0x62, SP, 0x63]
  {
    var s: Text := [0x61, LF, LF, LF, LF, 0x62, SP, SP, SP, 0x63];
    DropSurrogatesIdentity(s);
    CollapseIsCapping(s);
    ExampleNewlines();
    ExampleSpaces();
    StripIdentity([0x61, LF, LF, 0x62, SP, 0x63]);
  }
}
