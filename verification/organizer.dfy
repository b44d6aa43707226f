/** `organize_samplesheets`: groups the selected sheets by the sequencing
    date of their run folder into a dict of sorted, de-duplicated lists. */
module Organizer {
  import opened Paths
  import opened Dates

  /** The date key of a sheet: the date encoded in its parent folder's name. */
  function DateKey(sheet: Path): string {
    FolderDate(Parent(sheet))
  }

  /** A Python dict from date key to sheets: its keys in insertion order,
      and the mapping itself. */
  datatype Organized = Organized(keys: seq<string>, buckets: map<string, seq<Path>>) {
    /** Each key is listed once, and exactly the mapped keys are listed. */
    predicate Valid() {
      && (forall i, j :: 0 <= i < j < |keys| ==> keys[i] != keys[j])
      && buckets.Keys == set k | k in keys
    }
  }

  predicate StrictlySorted(s: seq<Path>) {
    forall i, j :: 0 <= i < j < |s| ==> PathLess(s[i], s[j])
  }

  /** Inserts `x` into a strictly sorted list unless it is already there. */
  function Insert(x: Path, s: seq<Path>): (r: seq<Path>)
    requires StrictlySorted(s)
    ensures StrictlySorted(r)
    ensures forall y :: y in r <==> y == x || y in s
    decreases |s|
  {
    if |s| == 0 then [x]
    else if x == s[0] then s
    else if PathLess(x, s[0]) then
      LessThanSorted(x, s);
      [x] + s
    else
      PathLessTotal(x, s[0]);
      var rest := Insert(x, s[1..]);
      assert forall y :: y in rest ==> PathLess(s[0], y);
      [s[0]] + rest
  }

  /** An element below the head of a strictly sorted list is below all of it. */
  lemma LessThanSorted(x: Path, s: seq<Path>)
    requires StrictlySorted(s) && |s| > 0 && PathLess(x, s[0])
    ensures forall j :: 0 <= j < |s| ==> PathLess(x, s[j])
  {
    forall j | 0 < j < |s| ensures PathLess(x, s[j]) {
      PathLessTransitive(x, s[0], s[j]);
    }
  }

  /** `sorted(set(v))`: the distinct elements of `v` in ascending order. */
  function SortUnique(v: seq<Path>): (r: seq<Path>)
    ensures StrictlySorted(r)
    ensures forall x :: x in r <==> x in v
    decreases |v|
  {
    if |v| == 0 then []
    else
      var init := v[..|v| - 1];
      assert forall x :: x in v <==> x in init || x == v[|v| - 1];
      Insert(v[|v| - 1], SortUnique(init))
  }

  /** A strictly sorted list is determined by its elements, so `SortUnique`
      is the one list Python's `sorted(set(v))` can produce. */
  lemma {:induction false} SortedUnique(a: seq<Path>, b: seq<Path>)
    requires StrictlySorted(a) && StrictlySorted(b)
    requires forall x :: x in a <==> x in b
    ensures a == b
    decreases |a|
  {
    if |a| > 0 {
      assert a[0] in a;
    }
    if |b| > 0 {
      assert b[0] in b;
    }
    if |a| > 0 && |b| > 0 {
      assert a[0] == b[0] by {
        HeadIsLeast(a);
        HeadIsLeast(b);
        PathLessAsymmetric(a[0], b[0]);
      }
      forall x ensures x in a[1..] <==> x in b[1..] {
        if x in a[1..] {
          var k :| 1 <= k < |a| && a[k] == x;
          assert PathLess(a[0], x);
          assert x != b[0] by {
            PathLessIrreflexive(a[0]);
          }
          assert x in b;
          var i :| 0 <= i < |b| && b[i] == x;
          assert b[1..][i - 1] == x;
        }
        if x in b[1..] {
          var k :| 1 <= k < |b| && b[k] == x;
          assert PathLess(b[0], x);
          assert x != a[0] by {
            PathLessIrreflexive(b[0]);
          }
          assert x in a;
          var i :| 0 <= i < |a| && a[i] == x;
          assert a[1..][i - 1] == x;
        }
      }
      SortedUnique(a[1..], b[1..]);
      assert a == [a[0]] + a[1..] && b == [b[0]] + b[1..];
    }
  }

  /** The head of a strictly sorted list is its least element. */
  lemma HeadIsLeast(s: seq<Path>)
    requires StrictlySorted(s) && |s| > 0
    ensures forall x :: x in s ==> x == s[0] || PathLess(s[0], x)
  {
  }

  /** `g` is `sel` grouped by `key`: every sheet sits in the bucket of its
      key and in no other, and every bucket has at least one sheet. */
  ghost predicate Grouped(g: Organized, sel: seq<Path>, key: Path -> string) {
    && g.Valid()
    && (forall p :: p in sel ==> key(p) in g.buckets && p in g.buckets[key(p)])
    && (forall k :: k in g.buckets ==> |g.buckets[k]| > 0)
    && (forall k, p :: k in g.buckets && p in g.buckets[k] ==> p in sel && key(p) == k)
  }

  /** One turn of the grouping loop: `s` is appended to the list of its key,
      which is added to the dict first if new. */
  function AddToGroup(g: Organized, s: Path, key: Path -> string): Organized {
    var k := key(s);
    if k in g.buckets then Organized(g.keys, g.buckets[k := g.buckets[k] + [s]])
    else Organized(g.keys + [k], g.buckets[k := [s]])
  }

  lemma AddToGroupKeepsGrouped(g: Organized, init: seq<Path>, s: Path, key: Path -> string)
    requires Grouped(g, init, key)
    ensures Grouped(AddToGroup(g, s, key), init + [s], key)
  {
    assert forall x :: x in init + [s] <==> x in init || x == s;
    if key(s) in g.buckets {
      AddToExisting(g, init, s, key);
    } else {
      AddToNew(g, init, s, key);
    }
  }

  lemma AddToExisting(g: Organized, init: seq<Path>, s: Path, key: Path -> string)
    requires Grouped(g, init, key) && key(s) in g.buckets
    requires forall x :: x in init + [s] <==> x in init || x == s
    ensures Grouped(AddToGroup(g, s, key), init + [s], key)
  {
    var k := key(s);
    var b := g.buckets[k := g.buckets[k] + [s]];
    assert b.Keys == g.buckets.Keys;
    assert forall x :: x in b[k] <==> x in g.buckets[k] || x == s;
    assert forall k' :: k' in b && k' != k ==> b[k'] == g.buckets[k'];
  }

  lemma AddToNew(g: Organized, init: seq<Path>, s: Path, key: Path -> string)
    requires Grouped(g, init, key) && key(s) !in g.buckets
    requires forall x :: x in init + [s] <==> x in init || x == s
    ensures Grouped(AddToGroup(g, s, key), init + [s], key)
  {
    var k := key(s);
    var keys := g.keys + [k];
    var b := g.buckets[k := [s]];
    NewKeyValid(g, k, [s]);
    forall p | p in init + [s] ensures key(p) in b && p in b[key(p)] {
      if p != s {
        assert b[key(p)] == g.buckets[key(p)];
      }
    }
    forall k', p | k' in b && p in b[k'] ensures p in init + [s] && key(p) == k' {
      if k' != k {
        assert b[k'] == g.buckets[k'];
      }
    }
  }

  /** Adding a new key at the end of the dict keeps it well formed. */
  lemma NewKeyValid(g: Organized, k: string, v: seq<Path>)
    requires g.Valid() && k !in g.buckets
    ensures Organized(g.keys + [k], g.buckets[k := v]).Valid()
  {
    var keys := g.keys + [k];
    assert k !in g.keys;
    assert forall i :: 0 <= i < |g.keys| ==> keys[i] == g.keys[i];
    assert (set x | x in keys) == (set x | x in g.keys) + {k};
  }

  /** The grouping loop of `organize_samplesheets`, for any key function. */
  function Group(sel: seq<Path>, key: Path -> string): (g: Organized)
    ensures Grouped(g, sel, key)
    decreases |sel|
  {
    if |sel| == 0 then Organized([], map[])
    else
      var init := sel[..|sel| - 1];
      var g := Group(init, key);
      AddToGroupKeepsGrouped(g, init, sel[|sel| - 1], key);
      assert init + [sel[|sel| - 1]] == sel;
      AddToGroup(g, sel[|sel| - 1], key)
  }

  /** Each bucket replaced by `sorted(set(bucket))`. */
  function SortBuckets(g: Organized): (o: Organized)
    ensures o.keys == g.keys && o.buckets.Keys == g.buckets.Keys
    ensures forall k :: k in o.buckets ==> StrictlySorted(o.buckets[k])
    ensures forall k, p :: k in o.buckets ==> (p in o.buckets[k] <==> p in g.buckets[k])
  {
    Organized(g.keys, map k | k in g.buckets :: SortUnique(g.buckets[k]))
  }

  lemma SortBucketsKeepsGrouped(g: Organized, sel: seq<Path>, key: Path -> string)
    requires Grouped(g, sel, key)
    ensures Grouped(SortBuckets(g), sel, key)
  {
    var o := SortBuckets(g);
    forall k | k in o.buckets ensures |o.buckets[k]| > 0 {
      assert g.buckets[k][0] in o.buckets[k];
    }
  }

  /** `organize_samplesheets`: every selected sheet sits in the bucket of
      its folder's date and in no other, every key has at least one sheet,
      and each bucket is strictly ascending (so free of duplicates). */
  function Organize(sel: seq<Path>): (o: Organized)
    ensures Grouped(o, sel, DateKey)
    ensures forall k :: k in o.buckets ==> StrictlySorted(o.buckets[k])
  {
    var g := Group(sel, DateKey);
    SortBucketsKeepsGrouped(g, sel, DateKey);
    SortBuckets(g)
  }

  /** A sheet listed twice, or found both by the expected-location scan and
      by a glob, is kept once. */
  lemma OrganizeDropsRepeats(sel: seq<Path>, k: string)
    requires k in Organize(sel).buckets
    ensures forall i, j :: 0 <= i < j < |Organize(sel).buckets[k]| ==>
              Organize(sel).buckets[k][i] != Organize(sel).buckets[k][j]
  {
    var b := Organize(sel).buckets[k];
    forall i, j | 0 <= i < j < |b| ensures b[i] != b[j] {
      PathLessIrreflexive(b[i]);
    }
  }
}
