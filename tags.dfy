/**
 * The values the tag store keeps: the Tag record, the errors its operations
 * raise, and the pure functions its operations are specified by (the map the
 * import builds, the values of the index, the sorted listing and its window).
 */
module Tags {
  import Sorting

  /**
   * A tag as `TagsModel` holds it. A missing (null) id or title is the empty
   * string here; dates are instants on an abstract clock.
   */
  datatype Tag = Tag(
    id: string,
    title: string,
    description: string,
    createdAt: int,
    createdBy: string,
    modifiedAt: int,
    modifiedBy: string)

  /** The exceptions the store raises. */
  datatype Error =
    | NotFound             // NotFoundException
    | Duplicate            // DuplicateException
    | Validation           // ValidationException
    | InternalServerError  // InternalServerErrorException

  /** The outcome of an operation that returns a tag or throws. */
  datatype Result<T> = Ok(value: T) | Err(error: Error)

  /** The outcome of an operation that returns nothing or throws. */
  datatype Status = Done | Failed(error: Error)

  /** Every entry of the index is stored under its own id. */
  ghost predicate KeysAreIds(m: map<string, Tag>) {
    forall k :: k in m ==> m[k].id == k
  }

  /**
   * The index the import loop builds: each tag is put under its id in turn,
   * so a later tag with the same id replaces an earlier one.
   */
  function Imported(tags: seq<Tag>): map<string, Tag>
  {
    if |tags| == 0 then map[]
    else
      var last := tags[|tags| - 1];
      Imported(tags[..|tags| - 1])[last.id := last]
  }

  /** The imported index has exactly the imported ids as its keys. */
  lemma {:induction false} ImportedKeys(tags: seq<Tag>, k: string)
    ensures k in Imported(tags) <==> exists i :: 0 <= i < |tags| && tags[i].id == k
  {
    if |tags| > 0 {
      var init := tags[..|tags| - 1];
      ImportedKeys(init, k);
      if k in Imported(init) {
        var i :| 0 <= i < |init| && init[i].id == k;
        assert tags[i].id == k;
      }
      if exists i :: 0 <= i < |tags| && tags[i].id == k {
        var i :| 0 <= i < |tags| && tags[i].id == k;
        if i < |init| { assert init[i].id == k; }
      }
    }
  }

  /** An imported tag that no later tag shares its id with is the one stored. */
  lemma {:induction false} ImportedLatest(tags: seq<Tag>, i: nat)
    requires i < |tags|
    requires forall j :: i < j < |tags| ==> tags[j].id != tags[i].id
    ensures tags[i].id in Imported(tags) && Imported(tags)[tags[i].id] == tags[i]
  {
    if i < |tags| - 1 {
      var init := tags[..|tags| - 1];
      forall j | i < j < |init| ensures init[j].id != init[i].id {
        assert init[j] == tags[j];
      }
      ImportedLatest(init, i);
    }
  }

  /** The imported index stores every tag under its own id. */
  lemma {:induction false} ImportedKeysAreIds(tags: seq<Tag>)
    ensures KeysAreIds(Imported(tags))
  {
    if |tags| > 0 {
      ImportedKeysAreIds(tags[..|tags| - 1]);
    }
  }

  /** Some key of a non-empty index. */
  ghost function Pick(m: map<string, Tag>): (k: string)
    requires |m| > 0
    ensures k in m
  {
    assert m.Keys != {};
    var k :| k in m; k
  }

  /**
   * The values of the index in some order (the order of `index.values()` is
   * the hash map's own and is not modelled).
   */
  ghost function ValuesSeq(m: map<string, Tag>): (s: seq<Tag>)
    ensures |s| == |m|
    decreases |m|
  {
    if |m| == 0 then []
    else
      var k := Pick(m);
      var rest := m - {k};
      assert rest.Keys == m.Keys - {k};
      [m[k]] + ValuesSeq(rest)
  }

  /** The values of a non-empty index are the picked key's value and the values of the rest. */
  lemma ValuesSeqUnfold(m: map<string, Tag>)
    requires |m| > 0
    ensures multiset(ValuesSeq(m)) == multiset{m[Pick(m)]} + multiset(ValuesSeq(m - {Pick(m)}))
  {
    assert ValuesSeq(m) == [m[Pick(m)]] + ValuesSeq(m - {Pick(m)});
  }

  /** Taking the values out one key at a time, in any order, gives them all. */
  lemma {:induction false} ValuesSeqRemove(m: map<string, Tag>, k: string)
    requires k in m
    ensures multiset(ValuesSeq(m)) == multiset{m[k]} + multiset(ValuesSeq(m - {k}))
    decreases |m|
  {
    var j := Pick(m);
    ValuesSeqUnfold(m);
    if j != k {
      var a, b := m - {j}, m - {k};
      assert a.Keys == m.Keys - {j} && b.Keys == m.Keys - {k};
      assert a - {k} == b - {j};
      assert a[k] == m[k] && b[j] == m[j];
      ValuesSeqRemove(a, k);
      ValuesSeqRemove(b, j);
    }
  }

  /** The values listed are exactly the values of the index. */
  lemma {:induction false} ValuesSeqMembers(m: map<string, Tag>)
    ensures forall k :: k in m ==> m[k] in ValuesSeq(m)
    ensures forall t :: t in ValuesSeq(m) ==> t in m.Values
    decreases |m|
  {
    if |m| > 0 {
      var j := Pick(m);
      var rest := m - {j};
      assert rest.Keys == m.Keys - {j};
      assert ValuesSeq(m) == [m[j]] + ValuesSeq(rest);
      ValuesSeqMembers(rest);
      forall k | k in m ensures m[k] in ValuesSeq(m) {
        if k != j { assert rest[k] == m[k]; }
      }
      forall t | t in ValuesSeq(m) ensures t in m.Values {
        if t != m[j] {
          assert t in ValuesSeq(rest);
          var k :| k in rest && rest[k] == t;
          assert m[k] == t;
        }
      }
    }
  }

  /**
   * The comparator ranks two tags equal only when they carry the same id, as
   * one that breaks ties by id does.
   */
  ghost predicate TiesShareId(le: (Tag, Tag) -> bool) {
    forall a, b :: le(a, b) && le(b, a) ==> a.id == b.id
  }

  /** Among tags stored under their own ids, such a comparator leaves no ties. */
  lemma StoredTagsDoNotTie(le: (Tag, Tag) -> bool, m: map<string, Tag>, s: seq<Tag>)
    requires KeysAreIds(m) && TiesShareId(le)
    requires forall t :: t in s ==> t in m.Values
    ensures Sorting.AntisymmetricOn(le, s)
  {
    forall i, j | 0 <= i < |s| && 0 <= j < |s| && le(s[i], s[j]) && le(s[j], s[i])
      ensures s[i] == s[j]
    {
      assert s[i] in m.Values && s[j] in m.Values;
      var ki :| ki in m && m[ki] == s[i];
      var kj :| kj in m && m[kj] == s[j];
      assert ki == s[i].id == s[j].id == kj;
    }
  }

  /** The values of the index, sorted by the comparator. */
  ghost function Ordered(le: (Tag, Tag) -> bool, m: map<string, Tag>): seq<Tag>
    requires Sorting.TotalPreorder(le)
  {
    Sorting.Sort(le, ValuesSeq(m))
  }

  /**
   * Sorting any copy of the index's values gives the sorted listing, whatever
   * order the copy was made in.
   */
  lemma SortedCopyIsOrdered(le: (Tag, Tag) -> bool, m: map<string, Tag>, tags: seq<Tag>)
    requires Sorting.TotalPreorder(le) && TiesShareId(le) && KeysAreIds(m)
    requires multiset(tags) == multiset(ValuesSeq(m))
    ensures Sorting.Sort(le, tags) == Ordered(le, m)
  {
    var sorted := Sorting.Sort(le, tags);
    ValuesSeqMembers(m);
    forall t | t in sorted ensures t in m.Values {
      assert t in multiset(sorted);
      assert t in multiset(ValuesSeq(m));
    }
    StoredTagsDoNotTie(le, m, sorted);
    Sorting.SortedUnique(le, sorted, Ordered(le, m));
  }

  /** The sorted listing holds every value of the index, once per key, in order. */
  lemma OrderedIsListing(le: (Tag, Tag) -> bool, m: map<string, Tag>)
    requires Sorting.TotalPreorder(le)
    ensures Sorting.Sorted(le, Ordered(le, m))
    ensures |Ordered(le, m)| == |m|
    ensures forall k :: k in m ==> m[k] in Ordered(le, m)
    ensures forall t :: t in Ordered(le, m) ==> t in m.Values
  {
    var s := ValuesSeq(m);
    var o := Ordered(le, m);
    ValuesSeqMembers(m);
    forall k | k in m ensures m[k] in o {
      assert m[k] in multiset(s);
    }
    forall t | t in o ensures t in m.Values {
      assert t in multiset(o);
    }
  }

  /** The first index of the window `[position, position + size)` inside `0..n`. */
  function WindowStart(n: nat, position: int): (lo: nat)
    ensures lo <= n
  {
    if position < 0 then 0 else if position > n then n else position
  }

  /** One past the last index of the window `[position, position + size)` inside `0..n`. */
  function WindowEnd(n: nat, position: int, size: int): (hi: nat)
    ensures WindowStart(n, position) <= hi <= n
  {
    var lo := WindowStart(n, position);
    if position + size < lo then lo else if position + size > n then n else position + size
  }

  /**
   * The elements of `s` whose index `i` satisfies `position <= i < position + size`.
   */
  function Window(s: seq<Tag>, position: int, size: int): (w: seq<Tag>)
    ensures |w| <= |s|
    ensures size >= 0 ==> |w| <= size
    ensures position >= |s| || size <= 0 ==> w == []
    ensures forall j :: 0 <= j < |w| ==>
      && WindowStart(|s|, position) + j < |s|
      && position <= WindowStart(|s|, position) + j < position + size
      && w[j] == s[WindowStart(|s|, position) + j]
    ensures forall i :: 0 <= i < |s| && position <= i < position + size ==>
      0 <= i - WindowStart(|s|, position) < |w| && w[i - WindowStart(|s|, position)] == s[i]
  {
    s[WindowStart(|s|, position)..WindowEnd(|s|, position, size)]
  }

  /** Extending the listing by one element extends its window by that element exactly when its index is inside. */
  lemma WindowStep(s: seq<Tag>, i: nat, position: int, size: int)
    requires i < |s|
    ensures Window(s[..i + 1], position, size) ==
      if position <= i < position + size then Window(s[..i], position, size) + [s[i]]
      else Window(s[..i], position, size)
  {
    var p, q := s[..i], s[..i + 1];
    assert q[..i] == p;
    var lo := WindowStart(i, position);
    if position <= i < position + size {
      assert WindowStart(i + 1, position) == lo && WindowEnd(i + 1, position, size) == i + 1;
      assert WindowEnd(i, position, size) == i;
      assert q[lo..i + 1] == p[lo..i] + [s[i]];
    } else if i < position {
      assert WindowStart(i + 1, position) == WindowEnd(i + 1, position, size);
    } else {
      var e := WindowEnd(i, position, size);
      assert WindowEnd(i + 1, position, size) == e <= i;
      assert WindowStart(i + 1, position) == lo;
      assert lo <= e;
      assert |q[lo..e]| == |p[lo..e]|;
      forall x | 0 <= x < e - lo ensures q[lo..e][x] == p[lo..e][x] {
        assert q[lo + x] == s[lo + x] == p[lo + x];
      }
      assert q[lo..e] == p[lo..e];
    }
  }
}
