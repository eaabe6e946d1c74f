/**
 * The master index list of a speaker's recordings, built from the names in the
 * speaker's directory (the names `os.listdir` returns are taken as input): keep
 * the names whose extension is the raw-EMA one, drop the extension, sort, and
 * keep the first `EMA_NUM` entries. Also the pair of helpers that turn an index
 * back into a path and a path into an index.
 */
module IndexListing {
  import opened PyPath

  /** The raw-EMA file extension of this dataset. */
  const PosExt: string := ".pos"

  /** Only the first 962 recordings are speech; the rest are palate recordings. */
  const EmaNum: nat := 962

  // ---------------------------------------------------------------------------
  // Python's ordering of str: code point by code point, a proper prefix first
  // ---------------------------------------------------------------------------

  predicate LexLeq(a: string, b: string)
    decreases |a|
  {
    |a| == 0 || (|b| > 0 && (a[0] < b[0] || (a[0] == b[0] && LexLeq(a[1..], b[1..]))))
  }

  lemma {:induction false} LexLeqTotal(a: string, b: string)
    ensures LexLeq(a, b) || LexLeq(b, a)
    decreases |a|
  {
    if |a| > 0 && |b| > 0 && a[0] == b[0] {
      LexLeqTotal(a[1..], b[1..]);
    }
  }

  lemma {:induction false} LexLeqTrans(a: string, b: string, c: string)
    requires LexLeq(a, b) && LexLeq(b, c)
    ensures LexLeq(a, c)
    decreases |a|
  {
    if |a| > 0 && a[0] == b[0] && b[0] == c[0] {
      LexLeqTrans(a[1..], b[1..], c[1..]);
    }
  }

  lemma {:induction false} LexLeqAntisym(a: string, b: string)
    requires LexLeq(a, b) && LexLeq(b, a)
    ensures a == b
    decreases |a|
  {
    if |a| > 0 {
      LexLeqAntisym(a[1..], b[1..]);
      assert a == [a[0]] + a[1..] && b == [b[0]] + b[1..];
    }
  }

  ghost predicate Sorted(s: seq<string>)
  {
    forall i, j :: 0 <= i < j < |s| ==> LexLeq(s[i], s[j])
  }

  // ---------------------------------------------------------------------------
  // sorted(list_of_str)
  // ---------------------------------------------------------------------------

  function Insert(x: string, s: seq<string>): (r: seq<string>)
    requires Sorted(s)
    ensures Sorted(r)
    ensures multiset(r) == multiset(s) + multiset{x}
    ensures |r| == |s| + 1
  {
    if s == [] then [x]
    else if LexLeq(x, s[0]) then
      InsertFront(x, s);
      [x] + s
    else
      LexLeqTotal(x, s[0]);
      var rest := Insert(x, s[1..]);
      InsertBehind(x, s, rest);
      [s[0]] + rest
  }

  /** A string no greater than every element stays sorted in front of them. */
  lemma PrependLeast(h: string, t: seq<string>)
    requires Sorted(t)
    requires forall j :: 0 <= j < |t| ==> LexLeq(h, t[j])
    ensures Sorted([h] + t)
  {
    var r := [h] + t;
    forall i, j | 0 <= i < j < |r| ensures LexLeq(r[i], r[j]) {
      if i > 0 { assert r[i] == t[i - 1] && r[j] == t[j - 1]; }
      else { assert r[j] == t[j - 1]; }
    }
  }

  /** Inserting at the front of a sorted list whose head is no smaller. */
  lemma InsertFront(x: string, s: seq<string>)
    requires Sorted(s) && |s| > 0 && LexLeq(x, s[0])
    ensures Sorted([x] + s)
  {
    forall j | 0 <= j < |s| ensures LexLeq(x, s[j]) {
      if j > 0 { LexLeqTrans(x, s[0], s[j]); }
    }
    PrependLeast(x, s);
  }

  /** Inserting behind the head: the head stays first. */
  lemma InsertBehind(x: string, s: seq<string>, rest: seq<string>)
    requires Sorted(s) && |s| > 0 && LexLeq(s[0], x)
    requires Sorted(rest) && multiset(rest) == multiset(s[1..]) + multiset{x}
    ensures Sorted([s[0]] + rest)
    ensures multiset([s[0]] + rest) == multiset(s) + multiset{x}
  {
    assert s == [s[0]] + s[1..];
    forall j | 0 <= j < |rest| ensures LexLeq(s[0], rest[j]) {
      assert rest[j] in multiset(rest);
      if rest[j] != x {
        assert rest[j] in multiset(s[1..]);
        var k :| 0 <= k < |s[1..]| && s[1..][k] == rest[j];
        assert s[k + 1] == rest[j];
      }
    }
    PrependLeast(s[0], rest);
  }

  /** Python's `sorted` on a list of str. */
  function SortStrings(s: seq<string>): (r: seq<string>)
    ensures Sorted(r)
    ensures multiset(r) == multiset(s)
    ensures |r| == |s|
  {
    if s == [] then []
    else
      assert s == [s[0]] + s[1..];
      Insert(s[0], SortStrings(s[1..]))
  }

  /** A list of str has exactly one sorted arrangement, so any sorting algorithm
      (Python's included) yields SortStrings. */
  lemma {:induction false} SortedUnique(a: seq<string>, b: seq<string>)
    requires Sorted(a) && Sorted(b)
    requires multiset(a) == multiset(b)
    ensures a == b
    decreases |a|
  {
    assert |a| == |multiset(a)| == |b|;
    if |a| > 0 {
      SortedHeads(a, b);
      SameTails(a, b);
      SortedUnique(a[1..], b[1..]);
      assert a == [a[0]] + a[1..] && b == [b[0]] + b[1..];
    }
  }

  /** Two ascending arrangements of the same strings start alike. */
  lemma SortedHeads(a: seq<string>, b: seq<string>)
    requires Sorted(a) && Sorted(b) && |a| > 0
    requires multiset(a) == multiset(b)
    ensures |b| > 0 && a[0] == b[0]
  {
    assert a[0] in multiset(b);
    var k :| 0 <= k < |b| && b[k] == a[0];
    assert b[0] in multiset(a);
    var m :| 0 <= m < |a| && a[m] == b[0];
    assert LexLeq(b[0], a[0]) by { if k > 0 { assert LexLeq(b[0], b[k]); } else { LexLeqRefl(b[0]); } }
    assert LexLeq(a[0], b[0]) by { if m > 0 { assert LexLeq(a[0], a[m]); } else { LexLeqRefl(a[0]); } }
    LexLeqAntisym(a[0], b[0]);
  }

  /** Removing equal heads leaves equal multisets. */
  lemma SameTails(a: seq<string>, b: seq<string>)
    requires |a| > 0 && |b| > 0 && a[0] == b[0]
    requires multiset(a) == multiset(b)
    ensures multiset(a[1..]) == multiset(b[1..])
  {
    assert a == [a[0]] + a[1..] && b == [b[0]] + b[1..];
    assert multiset(a) == multiset{a[0]} + multiset(a[1..]);
    assert multiset(b) == multiset{b[0]} + multiset(b[1..]);
    assert multiset(a[1..]) == multiset(a) - multiset{a[0]};
    assert multiset(b[1..]) == multiset(b) - multiset{b[0]};
  }

  lemma {:induction false} LexLeqRefl(a: string)
    ensures LexLeq(a, a)
    decreases |a|
  {
    if |a| > 0 {
      LexLeqRefl(a[1..]);
    }
  }

  // ---------------------------------------------------------------------------
  // The index list
  // ---------------------------------------------------------------------------

  /** The listed names whose extension is `ext`, in listing order. */
  function WithExt(names: seq<string>, ext: string): (w: seq<string>)
    ensures |w| <= |names|
    ensures forall i :: 0 <= i < |w| ==> w[i] in names && SplitExt(w[i]).1 == ext
    ensures forall n :: n in names && SplitExt(n).1 == ext ==> n in w
  {
    if names == [] then []
    else
      var rest := WithExt(names[1..], ext);
      assert forall n :: n in names && n != names[0] ==> n in names[1..];
      if SplitExt(names[0]).1 == ext then [names[0]] + rest else rest
  }

  /** The filter keeps every listed name carrying the extension as often as it
      is listed, and no other name. */
  lemma {:induction false} WithExtCount(names: seq<string>, ext: string, n: string)
    ensures multiset(WithExt(names, ext))[n] == if SplitExt(n).1 == ext then multiset(names)[n] else 0
    decreases |names|
  {
    if names != [] {
      var rest := WithExt(names[1..], ext);
      var head := multiset([names[0]]);
      WithExtCount(names[1..], ext, n);
      assert multiset(names)[n] == head[n] + multiset(names[1..])[n] by {
        assert names == [names[0]] + names[1..];
      }
      if SplitExt(names[0]).1 == ext {
        assert multiset(WithExt(names, ext))[n] == head[n] + multiset(rest)[n] by {
          assert WithExt(names, ext) == [names[0]] + rest;
        }
        assert head[n] != 0 ==> SplitExt(n).1 == ext;
      } else {
        assert WithExt(names, ext) == rest;
        assert SplitExt(n).1 == ext ==> head[n] == 0;
      }
    }
  }

  /** `[splitext(x)[0] for x in names if splitext(x)[-1] == ext]`: one root per
      listed name carrying the extension, in listing order. */
  function MatchingRoots(names: seq<string>, ext: string): (r: seq<string>)
    ensures |r| == |WithExt(names, ext)|
    ensures forall i :: 0 <= i < |r| ==> r[i] == SplitExt(WithExt(names, ext)[i]).0
  {
    if names == [] then []
    else
      var rest := MatchingRoots(names[1..], ext);
      if SplitExt(names[0]).1 == ext then
        assert WithExt(names, ext) == [names[0]] + WithExt(names[1..], ext);
        [SplitExt(names[0]).0] + rest
      else
        rest
  }

  /** Every kept root comes from a listed name that carries the extension. */
  lemma MatchingRootsSound(names: seq<string>, ext: string)
    ensures forall x :: x in MatchingRoots(names, ext) ==> exists n :: n in names && SplitExt(n) == (x, ext)
  {
    var r := MatchingRoots(names, ext);
    forall x | x in r ensures exists n :: n in names && SplitExt(n) == (x, ext) {
      var i :| 0 <= i < |r| && r[i] == x;
      var n := WithExt(names, ext)[i];
      assert n in names && SplitExt(n) == (x, ext);
    }
  }

  /** Every name carrying the extension contributes its root. */
  lemma {:induction false} MatchingRootsComplete(names: seq<string>, ext: string, n: string)
    requires n in names && SplitExt(n).1 == ext
    ensures SplitExt(n).0 in MatchingRoots(names, ext)
    decreases |names|
  {
    if names[0] != n {
      assert n in names[1..];
      MatchingRootsComplete(names[1..], ext, n);
    }
  }

  /** The speaker's index list: matching roots, sorted, first `count` of them. */
  function IndexList(names: seq<string>, ext: string, count: nat): (r: seq<string>)
    ensures |r| == if |MatchingRoots(names, ext)| < count then |MatchingRoots(names, ext)| else count
    ensures Sorted(r)
  {
    var sorted := SortStrings(MatchingRoots(names, ext));
    sorted[..if |sorted| < count then |sorted| else count]
  }

  /** What the index list is: a sorted prefix, at most `count` long, of the sorted
      roots of the matching names, so every entry comes from a matching name and
      every dropped root sorts after every kept one; when no more than `count`
      names match, none is dropped. */
  lemma IndexListSpec(names: seq<string>, ext: string, count: nat)
    ensures var r := IndexList(names, ext, count);
      && |r| == (if |MatchingRoots(names, ext)| < count then |MatchingRoots(names, ext)| else count)
      && |r| <= count
      && Sorted(r)
      && r == SortStrings(MatchingRoots(names, ext))[..|r|]
      && (forall x :: x in r ==> exists n :: n in names && SplitExt(n) == (x, ext))
      && (|MatchingRoots(names, ext)| <= count ==> multiset(r) == multiset(MatchingRoots(names, ext)))
  {
    var sorted := SortStrings(MatchingRoots(names, ext));
    var r := IndexList(names, ext, count);
    assert r == sorted[..|r|];
    PrefixSound(names, ext, |r|);
    if |MatchingRoots(names, ext)| <= count {
      assert r == sorted;
    }
  }

  /** Every root kept in a prefix of the sorted roots comes from a matching name. */
  lemma PrefixSound(names: seq<string>, ext: string, k: nat)
    requires k <= |SortStrings(MatchingRoots(names, ext))|
    ensures forall x :: x in SortStrings(MatchingRoots(names, ext))[..k] ==>
      exists n :: n in names && SplitExt(n) == (x, ext)
  {
    var sorted := SortStrings(MatchingRoots(names, ext));
    MatchingRootsSound(names, ext);
    forall x | x in sorted[..k] ensures exists n :: n in names && SplitExt(n) == (x, ext) {
      assert x in multiset(sorted);
    }
  }

  /** With fewer than `count` matches, every `.pos` file of the listing is indexed. */
  lemma IndexListKeepsAll(names: seq<string>, ext: string, count: nat, n: string)
    requires |MatchingRoots(names, ext)| <= count
    requires n in names && SplitExt(n).1 == ext
    ensures SplitExt(n).0 in IndexList(names, ext, count)
  {
    MatchingRootsComplete(names, ext, n);
    IndexListSpec(names, ext, count);
    assert SplitExt(n).0 in multiset(IndexList(names, ext, count));
  }

  // ---------------------------------------------------------------------------
  // Index <-> path
  // ---------------------------------------------------------------------------

  /** `_get_raw_EMA_index_from_path`: the file name without its extension. */
  function IndexFromPath(path: string): (r: string)
    ensures |r| <= |path|
    ensures forall i :: 0 <= i < |r| ==> r[i] != '/'
  {
    SplitExt(Basename(path)).0
  }

  /** `_get_raw_EMA_path_from_index`: directory joined with index plus extension. */
  function PathFromIndex(dir: string, index: string, ext: string): (r: string)
    ensures |index + ext| <= |r| && r[|r| - |index + ext|..] == index + ext
  {
    Join(dir, index + ext)
  }

  /** An index that could have come from a listed `.pos` name: no slash, and not
      made of dots only. */
  predicate IsPlainIndex(index: string)
  {
    (forall i :: 0 <= i < |index| ==> index[i] != '/') && exists i :: 0 <= i < |index| && index[i] != '.'
  }

  /** The final component of a joined path is the name joined on. */
  lemma BasenameOfJoin(dir: string, name: string)
    requires |name| > 0 && forall i :: 0 <= i < |name| ==> name[i] != '/'
    ensures Basename(Join(dir, name)) == name
  {
    var front := if dir == [] || dir[|dir| - 1] == '/' then dir else dir + "/";
    assert Join(dir, name) == front + name;
    RFindAppend(front, name, '/');
    if front == [] {
      assert front + name == name;
    } else {
      assert front[|front| - 1] == '/';
    }
  }

  /** A plain index followed by `.pos` splits back into the index and `.pos`. */
  lemma SplitExtPos(index: string)
    requires IsPlainIndex(index)
    ensures SplitExt(index + PosExt) == (index, PosExt)
  {
    var name := index + PosExt;
    assert name == (index + ['.']) + "pos";
    RFindAppend(index + ['.'], "pos", '.');
    RFindLast(index, '.');
    assert RFind(name, '.') == |index|;
    assert RFind(name, '/') == -1 by {
      RFindAppend([], name, '/');
      assert [] + name == name;
    }
    var k :| 0 <= k < |index| && index[k] != '.';
    assert name[k] == index[k];
    assert HasNonDot(name, 0, |index|);
    assert name[..|index|] == index;
  }

  /** Building a path from an index and reading the index back gives the index. */
  lemma IndexPathRoundTrip(dir: string, index: string)
    requires IsPlainIndex(index)
    ensures IndexFromPath(PathFromIndex(dir, index, PosExt)) == index
  {
    BasenameOfJoin(dir, index + PosExt);
    SplitExtPos(index);
  }

  /** Every entry of the index list leads back to itself through its path. */
  lemma IndexListRoundTrip(names: seq<string>, count: nat, dir: string, x: string)
    requires forall n :: n in names ==> forall i :: 0 <= i < |n| ==> n[i] != '/'
    requires x in IndexList(names, PosExt, count)
    ensures IndexFromPath(PathFromIndex(dir, x, PosExt)) == x
  {
    IndexListSpec(names, PosExt, count);
    var n :| n in names && SplitExt(n) == (x, PosExt);
    ListedIndexIsPlain(n, x);
    IndexPathRoundTrip(dir, x);
  }

  /** The root of a slash-free name split at `.pos` is a plain index. */
  lemma ListedIndexIsPlain(n: string, x: string)
    requires forall i :: 0 <= i < |n| ==> n[i] != '/'
    requires SplitExt(n) == (x, PosExt)
    ensures IsPlainIndex(x)
  {
    assert n == x + PosExt;
    var dot := RFind(n, '.');
    var sep := RFind(n, '/');
    assert sep == -1;
    assert dot > sep && HasNonDot(n, sep + 1, dot);
    var i :| sep + 1 <= i < dot && n[i] != '.';
    assert n[..dot] == x;
    assert x[i] == n[i];
  }
}
