/** The fragment locator, `get_txt_files` (consolidate_translations.py:11-20):
    the `*.txt` entries of a directory whose name starts with a digit run
    followed by `.txt`, keyed by the value of that run and stably sorted by key. */
module Locator {
  import opened Basics
  import opened Decimal

  /** One `(num, str(file))` pair of the result. */
  datatype Fragment = Fragment(key: nat, path: string)

  /** A source directory: its path, whether it exists (`Path(directory).exists()`), and the names of its
      entries in the order the directory scan yields them. */
  datatype Directory = Directory(path: string, present: bool, names: seq<string>)

  const Ext: string := ".txt"

  /** Length of the leading run of ASCII digits. */
  function DigitRun(s: string): (n: nat)
    ensures n <= |s| && AllDigits(s[..n])
    ensures n < |s| ==> !IsDigit(s[n])
  {
    if s != [] && IsDigit(s[0]) then
      var n := 1 + DigitRun(s[1..]);
      assert s[..n] == [s[0]] + s[1..][..n - 1];
      n
    else 0
  }

  /** `Path.glob("*.txt")` keeps the names that end in `.txt`. */
  predicate MatchesGlob(name: string)
  {
    |name| >= 4 && name[|name| - 4..] == Ext
  }

  /** `re.match(r'(\d+)\.txt', name)` and `int(match.group(1))`: the pattern
      is anchored at the start only, so anything may follow `.txt`. */
  function MatchKey(name: string): Option<nat>
  {
    var n := DigitRun(name);
    if 0 < n && n + 4 <= |name| && name[n..n + 4] == Ext then Some(Value(name[..n])) else None
  }

  /** The key of an entry the loop keeps, or None for an entry it skips. */
  function KeyOf(name: string): Option<nat>
  {
    if MatchesGlob(name) then MatchKey(name) else None
  }

  /** `str(Path(directory) / name)`. */
  function JoinPath(dir: string, name: string): string
  {
    dir + "/" + name
  }

  /** The list `txt_files` after the scan loop over `names`, in scan order. */
  function Scan(dir: string, names: seq<string>): seq<Fragment>
  {
    if names == [] then []
    else
      var name := names[|names| - 1];
      Scan(dir, names[..|names| - 1]) + Emit(dir, name)
  }

  /** What one loop iteration appends for the entry `name`. */
  function Emit(dir: string, name: string): seq<Fragment>
  {
    match KeyOf(name)
    case Some(k) => [Fragment(k, JoinPath(dir, name))]
    case None => []
  }

  /** The entry `name` yields the fragment f. */
  predicate Produces(dir: string, name: string, f: Fragment)
  {
    KeyOf(name) == Some(f.key) && f.path == JoinPath(dir, name)
  }

  /** `txt_files` before sorting: empty for a missing directory. */
  function Candidates(d: Directory): seq<Fragment>
  {
    if d.present then Scan(d.path, d.names) else []
  }

  // ---------------------------------------------------------------------
  // Matching a name

  /** A name matches the pattern exactly when it begins with a non-empty digit
      run immediately followed by `.txt`; the key is the value of that run. */
  lemma MatchKeySpec(name: string, k: nat)
    ensures MatchKey(name) == Some(k) <==>
      exists n :: 0 < n && n + 4 <= |name| && AllDigits(name[..n]) && name[n..n + 4] == Ext
                  && Value(name[..n]) == k
  {
    var d := DigitRun(name);
    if n :| 0 < n && n + 4 <= |name| && AllDigits(name[..n]) && name[n..n + 4] == Ext && Value(name[..n]) == k {
      DigitRunUnique(name, n);
    }
  }

  /** A digit prefix followed by a non-digit is the whole leading digit run. */
  lemma DigitRunUnique(s: string, n: nat)
    requires n < |s| && AllDigits(s[..n]) && !IsDigit(s[n])
    ensures DigitRun(s) == n
  {
  }

  /** The separator of the assembled document names `NNN.txt`; that name
      matches the pattern again and yields the same key. */
  lemma SeparatorNameParsesBack(k: nat)
    ensures KeyOf(Pad3(k) + Ext) == Some(k)
  {
    Pad3Spec(k);
    var s := Pad3(k);
    var name := s + Ext;
    assert name[..|s|] == s;
    assert name[|s|..|s| + 4] == Ext;
    assert name[|name| - 4..] == Ext;
    MatchKeySpec(name, k);
  }

  // ---------------------------------------------------------------------
  // The scan

  /** An entry is in the scan result exactly when some name in the
      directory has its key and path. */
  lemma {:induction false} ScanMembership(dir: string, names: seq<string>, f: Fragment)
    ensures f in Scan(dir, names) <==> exists i :: 0 <= i < |names| && Produces(dir, names[i], f)
  {
    if names != [] {
      var init, last := names[..|names| - 1], names[|names| - 1];
      ScanMembership(dir, init, f);
      assert f in Emit(dir, last) <==> Produces(dir, last, f);
      if i :| 0 <= i < |names| && Produces(dir, names[i], f) {
        if i < |names| - 1 { assert init[i] == names[i]; }
      }
      if i :| 0 <= i < |init| && Produces(dir, init[i], f) {
        assert names[i] == init[i];
      }
    }
  }

  /** A scan never yields more fragments than there are names. */
  lemma {:induction false} ScanLength(dir: string, names: seq<string>)
    ensures |Scan(dir, names)| <= |names|
  {
    if names != [] {
      ScanLength(dir, names[..|names| - 1]);
    }
  }

  // ---------------------------------------------------------------------
  // `sorted(txt_files, key=lambda x: x[0])`

  predicate SortedByKey(s: seq<Fragment>)
  {
    forall i, j :: 0 <= i < j < |s| ==> s[i].key <= s[j].key
  }

  /** The fragments of s with key k, in the order of s. */
  function WithKey(s: seq<Fragment>, k: nat): seq<Fragment>
  {
    if s == [] then []
    else (if s[0].key == k then [s[0]] else []) + WithKey(s[1..], k)
  }

  /** Puts f in front of the first element whose key is not smaller. */
  function Insert(f: Fragment, s: seq<Fragment>): seq<Fragment>
  {
    if s == [] || f.key <= s[0].key then [f] + s
    else [s[0]] + Insert(f, s[1..])
  }

  /** Python's `sorted` with a key: a stable sort, ascending by key. */
  function SortByKey(s: seq<Fragment>): seq<Fragment>
  {
    if s == [] then [] else Insert(s[0], SortByKey(s[1..]))
  }

  lemma {:induction false} InsertMultiset(f: Fragment, s: seq<Fragment>)
    ensures multiset(Insert(f, s)) == multiset(s) + multiset{f}
  {
    if s != [] && f.key > s[0].key {
      InsertMultiset(f, s[1..]);
      assert s == [s[0]] + s[1..];
    }
  }

  /** Every fragment of s has a key of at least k. */
  predicate KeysAtLeast(s: seq<Fragment>, k: nat)
  {
    forall i :: 0 <= i < |s| ==> k <= s[i].key
  }

  lemma {:induction false} InsertKeysAtLeast(f: Fragment, s: seq<Fragment>, k: nat)
    requires KeysAtLeast(s, k) && k <= f.key
    ensures KeysAtLeast(Insert(f, s), k)
  {
    if !(s == [] || f.key <= s[0].key) {
      InsertKeysAtLeast(f, s[1..], k);
      assert Insert(f, s) == [s[0]] + Insert(f, s[1..]);
    }
  }

  /** A fragment in front of a sorted sequence whose keys are not smaller
      keeps it sorted. */
  lemma ConsSorted(f: Fragment, s: seq<Fragment>)
    requires SortedByKey(s) && KeysAtLeast(s, f.key)
    ensures SortedByKey([f] + s)
  {
    var t := [f] + s;
    forall i, j | 0 <= i < j < |t| ensures t[i].key <= t[j].key {
      if i == 0 { assert t[j] == s[j - 1]; } else { assert t[i] == s[i - 1] && t[j] == s[j - 1]; }
    }
  }

  lemma {:induction false} InsertSorted(f: Fragment, s: seq<Fragment>)
    requires SortedByKey(s)
    ensures SortedByKey(Insert(f, s))
  {
    if s == [] || f.key <= s[0].key {
      ConsSorted(f, s);
    } else {
      InsertSorted(f, s[1..]);
      InsertKeysAtLeast(f, s[1..], s[0].key);
      ConsSorted(s[0], Insert(f, s[1..]));
    }
  }

  lemma {:induction false} InsertWithKey(f: Fragment, s: seq<Fragment>, k: nat)
    ensures WithKey(Insert(f, s), k) == (if f.key == k then [f] else []) + WithKey(s, k)
  {
    if s == [] || f.key <= s[0].key {
      assert Insert(f, s) == [f] + s;
      assert ([f] + s)[1..] == s;
    } else {
      var r := Insert(f, s[1..]);
      assert Insert(f, s) == [s[0]] + r;
      InsertWithKey(f, s[1..], k);
      assert ([s[0]] + r)[1..] == r;
      var pf := if f.key == k then [f] else [];
      var p0 := if s[0].key == k then [s[0]] else [];
      assert WithKey([s[0]] + r, k) == p0 + WithKey(r, k);
      assert WithKey(s, k) == p0 + WithKey(s[1..], k);
      assert p0 == [] || pf == [];
      assert p0 + (pf + WithKey(s[1..], k)) == pf + (p0 + WithKey(s[1..], k));
    }
  }

  /** The sort orders by key, keeps the scan order among equal keys (so
      duplicates such as `1.txt` and `01.txt` are all kept) and is a
      permutation of its input. */
  lemma {:induction false} SortByKeySpec(s: seq<Fragment>)
    ensures SortedByKey(SortByKey(s))
    ensures forall k :: WithKey(SortByKey(s), k) == WithKey(s, k)
    ensures multiset(SortByKey(s)) == multiset(s)
    ensures |SortByKey(s)| == |s|
  {
    if s != [] {
      SortByKeySpec(s[1..]);
      InsertMultiset(s[0], SortByKey(s[1..]));
      InsertSorted(s[0], SortByKey(s[1..]));
      assert s == [s[0]] + s[1..];
      assert |multiset(SortByKey(s))| == |multiset(s)|;
      forall k ensures WithKey(SortByKey(s), k) == WithKey(s, k) {
        InsertWithKey(s[0], SortByKey(s[1..]), k);
      }
    }
  }

  /** A sorted sequence with the same fragments per key as s is the result of
      the stable sort: the three properties determine `sorted` completely. */
  lemma {:induction false} StableSortUnique(s: seq<Fragment>, t: seq<Fragment>)
    requires SortedByKey(t)
    requires forall k :: WithKey(t, k) == WithKey(s, k)
    ensures t == SortByKey(s)
  {
    SortByKeySpec(s);
    SortedSameGroupsEqual(t, SortByKey(s));
  }

  lemma {:induction false} SortedSameGroupsEqual(a: seq<Fragment>, b: seq<Fragment>)
    requires SortedByKey(a) && SortedByKey(b)
    requires forall k :: WithKey(a, k) == WithKey(b, k)
    ensures a == b
    decreases |a| + |b|
  {
    if a == [] || b == [] {
      // Whichever side is non-empty has a fragment with its first key.
      if a != [] { WithKeyHead(a); } else if b != [] { WithKeyHead(b); }
    } else {
      // The first elements have the least key of each side, hence the same key.
      var ka, kb := a[0].key, b[0].key;
      if ka < kb {
        WithKeyHead(a);
        WithKeyAllAbove(b, ka);
      } else if kb < ka {
        WithKeyHead(b);
        WithKeyAllAbove(a, kb);
      }
      assert a[0] == b[0] by {
        assert WithKey(a, ka) == [a[0]] + WithKey(a[1..], ka);
        assert WithKey(b, ka) == [b[0]] + WithKey(b[1..], ka);
        assert WithKey(a, ka)[0] == a[0] && WithKey(b, ka)[0] == b[0];
      }
      forall k ensures WithKey(a[1..], k) == WithKey(b[1..], k) {
        var p := if ka == k then [a[0]] else [];
        assert WithKey(a, k) == p + WithKey(a[1..], k);
        assert WithKey(b, k) == p + WithKey(b[1..], k);
        assert WithKey(a[1..], k) == WithKey(a, k)[|p|..];
        assert WithKey(b[1..], k) == WithKey(b, k)[|p|..];
      }
      SortedSameGroupsEqual(a[1..], b[1..]);
      assert a == [a[0]] + a[1..] && b == [b[0]] + b[1..];
    }
  }

  lemma WithKeyHead(s: seq<Fragment>)
    requires s != []
    ensures WithKey(s, s[0].key) == [s[0]] + WithKey(s[1..], s[0].key)
  {
  }

  /** In a sorted sequence whose first key exceeds k there is nothing with key k. */
  lemma {:induction false} WithKeyAllAbove(s: seq<Fragment>, k: nat)
    requires SortedByKey(s) && s != [] && k < s[0].key
    ensures WithKey(s, k) == []
  {
    if |s| > 1 {
      assert s[0].key <= s[1].key;
      WithKeyAllAbove(s[1..], k);
    }
  }

  // ---------------------------------------------------------------------
  // `get_txt_files`

  /** The locator: builds `txt_files` by appending in scan order, then sorts. */
  method GetTxtFiles(d: Directory) returns (files: seq<Fragment>)
    ensures !d.present ==> files == []
    ensures files == SortByKey(Candidates(d))
    ensures SortedByKey(files)
    ensures forall k :: WithKey(files, k) == WithKey(Candidates(d), k)
    ensures forall f :: f in files <==>
      d.present && exists i :: 0 <= i < |d.names| && Produces(d.path, d.names[i], f)
  {
    var txtFiles: seq<Fragment> := [];
    if d.present {
      var i := 0;
      while i < |d.names|
        invariant 0 <= i <= |d.names|
        invariant txtFiles == Scan(d.path, d.names[..i])
      {
        var name := d.names[i];
        assert d.names[..i + 1][..i] == d.names[..i];
        match MatchKey(name) {
          case Some(num) =>
            if MatchesGlob(name) {
              txtFiles := txtFiles + [Fragment(num, JoinPath(d.path, name))];
            }
          case None =>
        }
        i := i + 1;
      }
      assert d.names[..i] == d.names;
    }
    files := SortByKey(txtFiles);
    SortByKeySpec(txtFiles);
    forall f ensures f in files <==>
      d.present && exists i :: 0 <= i < |d.names| && Produces(d.path, d.names[i], f)
    {
      assert f in files <==> f in multiset(files);
      assert f in txtFiles <==> f in multiset(txtFiles);
      if d.present { ScanMembership(d.path, d.names, f); }
    }
  }
}
