/** The sortable video table of the React view: its `sortConfig` and
    `videos` state, the header click handler `sortData`, and the three-way
    comparator it hands to `Array.prototype.sort`. Fields are reached
    through an explicit key enumeration instead of `video[key]`. */
module TableView {
  import opened Api
  import Lexicographic
  import Sorting
  import Backend

  datatype Key = Title | Views | Likes | PublishedAt

  datatype Direction = Asc | Desc

  datatype SortConfig = SortConfig(key: Key, direction: Direction)

  /** `useState({ key: 'views', direction: 'desc' })`. */
  const InitialSortConfig := SortConfig(Views, Desc)

  /** The value of one sortable field: text compares as JavaScript compares
      strings, counts as numbers. */
  datatype FieldValue = Text(text: string) | Count(count: nat)

  function Field(v: Video, key: Key): FieldValue {
    match key
    case Title => Text(v.title)
    case Views => Count(v.views)
    case Likes => Count(v.likes)
    case PublishedAt => Text(v.publishedAt)
  }

  /** JavaScript `<` on two field values. A key always yields values of
      one kind, so the mixed case never arises. */
  predicate ValueLess(x: FieldValue, y: FieldValue): (less: bool)
    ensures less ==> x != y
    ensures less ==> x.Text? == y.Text?
  {
    match (x, y)
    case (Text(a), Text(b)) => Lexicographic.StrLess(a, b)
    case (Count(m), Count(n)) => m < n
    case _ => false
  }

  function Opposite(d: Direction): Direction {
    if d == Asc then Desc else Asc
  }

  /** The direction `sortData(key)` picks: descending only when the same
      key is clicked while it is ascending. */
  function NextDirection(config: SortConfig, key: Key): (d: Direction)
    ensures config.key != key ==> d == Asc
    ensures config.key == key ==> d == Opposite(config.direction)
  {
    if config.key == key && config.direction == Asc then Desc else Asc
  }

  /** The comparator passed to `sort`: negative when `a` goes first. */
  function Compare(a: Video, b: Video, key: Key, direction: Direction): (c: int)
    ensures -1 <= c <= 1
    ensures c < 0 <==> if direction == Asc then ValueLess(Field(a, key), Field(b, key))
                       else ValueLess(Field(b, key), Field(a, key))
    ensures c > 0 <==> if direction == Asc then ValueLess(Field(b, key), Field(a, key))
                       else ValueLess(Field(a, key), Field(b, key))
  {
    if ValueLess(Field(a, key), Field(b, key)) then
      ValueLessAsymmetric(Field(a, key), Field(b, key));
      if direction == Asc then -1 else 1
    else if ValueLess(Field(b, key), Field(a, key)) then (if direction == Asc then 1 else -1)
    else 0
  }

  /** Non-decreasing on `key` when ascending, non-increasing when
      descending: no element is strictly out of place relative to a later
      one. */
  ghost predicate SortedOn(vs: seq<Video>, key: Key, direction: Direction) {
    forall i, j | 0 <= i < j < |vs| ::
      if direction == Asc then !ValueLess(Field(vs[j], key), Field(vs[i], key))
      else !ValueLess(Field(vs[i], key), Field(vs[j], key))
  }

  lemma {:induction false} ValueLessIrreflexive(x: FieldValue)
    ensures !ValueLess(x, x)
  {
    if x.Text? {
      Lexicographic.StrLessIrreflexive(x.text);
    }
  }

  lemma {:induction false} ValueLessAsymmetric(x: FieldValue, y: FieldValue)
    requires ValueLess(x, y)
    ensures !ValueLess(y, x)
  {
    if x.Text? && y.Text? {
      Lexicographic.StrLessAsymmetric(x.text, y.text);
    }
  }

  lemma {:induction false} ValueLessTransitive(x: FieldValue, y: FieldValue, z: FieldValue)
    requires ValueLess(x, y) && ValueLess(y, z)
    ensures ValueLess(x, z)
  {
    if x.Text? && y.Text? && z.Text? {
      Lexicographic.StrLessTransitive(x.text, y.text, z.text);
    }
  }

  /** Two different values of one field are ordered one way or the other. */
  lemma {:induction false} FieldValuesComparable(a: Video, b: Video, key: Key)
    requires Field(a, key) != Field(b, key)
    ensures ValueLess(Field(a, key), Field(b, key)) || ValueLess(Field(b, key), Field(a, key))
  {
    match key
    case Title => Lexicographic.StrLessTotal(a.title, b.title);
    case PublishedAt => Lexicographic.StrLessTotal(a.publishedAt, b.publishedAt);
    case Views =>
    case Likes =>
  }

  /** Swapping the arguments negates the comparator. */
  lemma {:induction false} CompareAntisymmetric(a: Video, b: Video, key: Key, direction: Direction)
    ensures Compare(a, b, key, direction) == -Compare(b, a, key, direction)
    ensures -1 <= Compare(a, b, key, direction) <= 1
  {
    if ValueLess(Field(a, key), Field(b, key)) {
      ValueLessAsymmetric(Field(a, key), Field(b, key));
    }
  }

  /** The comparator returns 0 exactly when neither value is less than the
      other, which is exactly when the two fields are equal. */
  lemma {:induction false} CompareZero(a: Video, b: Video, key: Key, direction: Direction)
    ensures Compare(a, b, key, direction) == 0 <==>
      !ValueLess(Field(a, key), Field(b, key)) && !ValueLess(Field(b, key), Field(a, key))
    ensures Compare(a, b, key, direction) == 0 <==> Field(a, key) == Field(b, key)
  {
    if Field(a, key) == Field(b, key) {
      ValueLessIrreflexive(Field(a, key));
    } else {
      FieldValuesComparable(a, b, key);
      if ValueLess(Field(a, key), Field(b, key)) {
        ValueLessAsymmetric(Field(a, key), Field(b, key));
      }
    }
  }

  /** `a` may go before `b` exactly when `b`'s field is not strictly below
      `a`'s (ascending) or not strictly above it (descending). */
  lemma {:induction false} CompareNonPositive(a: Video, b: Video, key: Key, direction: Direction)
    ensures Compare(a, b, key, direction) <= 0 <==>
      if direction == Asc then !ValueLess(Field(b, key), Field(a, key))
      else !ValueLess(Field(a, key), Field(b, key))
  {
    if ValueLess(Field(a, key), Field(b, key)) {
      ValueLessAsymmetric(Field(a, key), Field(b, key));
    }
  }

  /** "May come before" under the comparator. */
  function Precedes(key: Key, direction: Direction): (Video, Video) -> bool {
    (a: Video, b: Video) => Compare(a, b, key, direction) <= 0
  }

  lemma {:induction false} PrecedesTotalPreorder(key: Key, direction: Direction)
    ensures Sorting.TotalPreorder(Precedes(key, direction))
  {
    var le := Precedes(key, direction);
    forall a, b
      ensures le(a, b) || le(b, a)
    {
      CompareAntisymmetric(a, b, key, direction);
    }
    forall a, b, c | le(a, b) && le(b, c)
      ensures le(a, c)
    {
      CompareNonPositive(a, b, key, direction);
      CompareNonPositive(b, c, key, direction);
      CompareNonPositive(a, c, key, direction);
      var fa, fb, fc := Field(a, key), Field(b, key), Field(c, key);
      if direction == Asc {
        if ValueLess(fc, fa) {
          if fb == fa {
          } else if fb == fc {
          } else {
            FieldValuesComparable(a, b, key);
            if ValueLess(fb, fa) {
            } else {
              FieldValuesComparable(b, c, key);
              ValueLessTransitive(fc, fa, fb);
            }
          }
        }
      } else {
        if ValueLess(fa, fc) {
          if fb == fa {
          } else if fb == fc {
          } else {
            FieldValuesComparable(a, b, key);
            if ValueLess(fa, fb) {
            } else {
              FieldValuesComparable(b, c, key);
              ValueLessTransitive(fb, fa, fc);
            }
          }
        }
      }
    }
  }

  lemma {:induction false} SortedByPrecedes(vs: seq<Video>, key: Key, direction: Direction)
    requires Sorting.SortedBy(vs, Precedes(key, direction))
    ensures SortedOn(vs, key, direction)
  {
    forall i, j | 0 <= i < j < |vs|
      ensures if direction == Asc then !ValueLess(Field(vs[j], key), Field(vs[i], key))
              else !ValueLess(Field(vs[i], key), Field(vs[j], key))
    {
      assert Precedes(key, direction)(vs[i], vs[j]);
      CompareNonPositive(vs[i], vs[j], key, direction);
    }
  }

  /** `[...videos].sort(comparator)`: a reordered copy. */
  function SortedCopy(vs: seq<Video>, key: Key, direction: Direction): (r: seq<Video>)
    ensures |r| == |vs|
    ensures multiset(r) == multiset(vs)
    ensures SortedOn(r, key, direction)
  {
    PrecedesTotalPreorder(key, direction);
    Sorting.SortSorted(vs, Precedes(key, direction));
    SortedByPrecedes(Sorting.Sort(vs, Precedes(key, direction)), key, direction);
    Sorting.Sort(vs, Precedes(key, direction))
  }

  /** In a list sorted on `key`, two elements whose fields differ stand in
      the order the direction prescribes; so re-sorting the other way
      reverses every such pair, whatever happens to ties. */
  lemma {:induction false} StrictPairsFollowDirection(vs: seq<Video>, key: Key, direction: Direction, i: nat, j: nat)
    requires SortedOn(vs, key, direction)
    requires i < |vs| && j < |vs|
    requires ValueLess(Field(vs[i], key), Field(vs[j], key))
    ensures direction == Asc ==> i < j
    ensures direction == Desc ==> j < i
  {
    ValueLessAsymmetric(Field(vs[i], key), Field(vs[j], key));
  }

  /** No two elements of `vs` share their value on `key`. */
  ghost predicate DistinctOn(vs: seq<Video>, key: Key) {
    forall i, j | 0 <= i < j < |vs| :: Field(vs[i], key) != Field(vs[j], key)
  }

  lemma {:induction false} SortedOnTail(vs: seq<Video>, key: Key, direction: Direction)
    requires vs != [] && SortedOn(vs, key, direction)
    ensures SortedOn(vs[1..], key, direction)
  {
    var t := vs[1..];
    forall i, j | 0 <= i < j < |t|
      ensures if direction == Asc then !ValueLess(Field(t[j], key), Field(t[i], key))
              else !ValueLess(Field(t[i], key), Field(t[j], key))
    {
      assert t[i] == vs[i + 1] && t[j] == vs[j + 1];
    }
  }

  lemma {:induction false} DistinctOnTail(vs: seq<Video>, key: Key)
    requires vs != [] && DistinctOn(vs, key)
    ensures DistinctOn(vs[1..], key)
  {
    var t := vs[1..];
    forall i, j | 0 <= i < j < |t|
      ensures Field(t[i], key) != Field(t[j], key)
    {
      assert t[i] == vs[i + 1] && t[j] == vs[j + 1];
    }
  }

  /** Two sorted reorderings of one list with distinct keys start alike. */
  lemma {:induction false} SortedPermutationSameFirst(r1: seq<Video>, r2: seq<Video>, key: Key, direction: Direction)
    requires r1 != [] && multiset(r1) == multiset(r2)
    requires SortedOn(r1, key, direction) && SortedOn(r2, key, direction)
    requires DistinctOn(r1, key)
    ensures r2 != [] && r1[0] == r2[0]
  {
    assert r1[0] in multiset(r2);
    var n := Sorting.IndexOf(r2, r1[0]);
    assert r2[0] in multiset(r1);
    var m := Sorting.IndexOf(r1, r2[0]);
    if m != 0 {
      var f0, fm := Field(r1[0], key), Field(r1[m], key);
      assert f0 != fm;
      assert n != 0;
      // r1 orders r1[0] before r2[0]; r2 orders r2[0] before r1[0]
      assert if direction == Asc then !ValueLess(fm, f0) else !ValueLess(f0, fm);
      assert if direction == Asc then !ValueLess(f0, fm) else !ValueLess(fm, f0) by {
        assert r2[n] == r1[0] && r2[0] == r1[m];
      }
      FieldValuesComparable(r1[0], r1[m], key);
      assert false;
    }
  }

  /** With pairwise different values on `key` there are no ties, and the
      sorted reordering of a list is unique. */
  lemma {:induction false} SortedPermutationUnique(r1: seq<Video>, r2: seq<Video>, key: Key, direction: Direction)
    requires multiset(r1) == multiset(r2)
    requires SortedOn(r1, key, direction) && SortedOn(r2, key, direction)
    requires DistinctOn(r1, key)
    ensures r1 == r2
    decreases |r1|
  {
    assert |r1| == |multiset(r1)| == |r2|;
    if r1 != [] {
      SortedPermutationSameFirst(r1, r2, key, direction);
      Sorting.MultisetRemoveFirstOf(r1, r2, 0);
      assert r1[..0] + r1[1..] == r1[1..];
      SortedOnTail(r1, key, direction);
      SortedOnTail(r2, key, direction);
      DistinctOnTail(r1, key);
      SortedPermutationUnique(r1[1..], r2[1..], key, direction);
      assert r1 == [r1[0]] + r1[1..] && r2 == [r2[0]] + r2[1..];
    }
  }

  /** Two values that each may come before the other are equal. */
  lemma {:induction false} MutuallyInOrderEqual(a: Video, b: Video, key: Key, direction: Direction)
    requires if direction == Asc then !ValueLess(Field(b, key), Field(a, key))
             else !ValueLess(Field(a, key), Field(b, key))
    requires if direction == Asc then !ValueLess(Field(a, key), Field(b, key))
             else !ValueLess(Field(b, key), Field(a, key))
    ensures Field(a, key) == Field(b, key)
  {
    if Field(a, key) != Field(b, key) {
      FieldValuesComparable(a, b, key);
    }
  }

  /** Removing one video keeps a table sorted. */
  lemma {:induction false} SortedOnRemove(vs: seq<Video>, m: nat, key: Key, direction: Direction)
    requires m < |vs| && SortedOn(vs, key, direction)
    ensures SortedOn(vs[..m] + vs[m + 1..], key, direction)
  {
    var t := vs[..m] + vs[m + 1..];
    forall i, j | 0 <= i < j < |t|
      ensures if direction == Asc then !ValueLess(Field(t[j], key), Field(t[i], key))
              else !ValueLess(Field(t[i], key), Field(t[j], key))
    {
      var i', j' := if i < m then i else i + 1, if j < m then j else j + 1;
      assert t[i] == vs[i'] && t[j] == vs[j'];
    }
  }

  /** If the first video of one sorted reordering stands at `m` in another,
      every video up to `m` in the other has the same value. */
  lemma {:induction false} SameValueUpToFirst(r1: seq<Video>, r2: seq<Video>, m: nat, key: Key, direction: Direction)
    requires multiset(r1) == multiset(r2)
    requires SortedOn(r1, key, direction) && SortedOn(r2, key, direction)
    requires m < |r1| && r2 != [] && r1[m] == r2[0]
    ensures forall k | 0 <= k <= m :: Field(r1[k], key) == Field(r2[0], key)
  {
    forall k | 0 <= k <= m
      ensures Field(r1[k], key) == Field(r2[0], key)
    {
      if r1[k] != r2[0] {
        assert r1[k] in multiset(r2);
        var n := Sorting.IndexOf(r2, r1[k]);
        assert 0 < n;
        MutuallyInOrderEqual(r1[k], r2[0], key, direction);
      }
    }
  }

  /** Putting the values back together: positions up to `m` of `r1` carry
      the value `r2` starts with, and `r1` without position `m` has the
      values of `r2` without its first. */
  lemma {:induction false} SameValuesAfterRemoval(r1: seq<Video>, r2: seq<Video>, m: nat, key: Key)
    requires m < |r1| && |r1| == |r2|
    requires forall k | 0 <= k <= m :: Field(r1[k], key) == Field(r2[0], key)
    requires forall i | 0 <= i < |r1| - 1 ::
      Field((r1[..m] + r1[m + 1..])[i], key) == Field(r2[1..][i], key)
    ensures forall i | 0 <= i < |r1| :: Field(r1[i], key) == Field(r2[i], key)
  {
    var rest := r1[..m] + r1[m + 1..];
    forall i | 0 <= i < |r1|
      ensures Field(r1[i], key) == Field(r2[i], key)
    {
      if 0 < i <= m {
        assert rest[i - 1] == r1[i - 1] && r2[1..][i - 1] == r2[i];
      } else if m < i {
        assert rest[i - 1] == r1[i] && r2[1..][i - 1] == r2[i];
      }
    }
  }

  /** The sort contract pins the result down up to ties: two sorted
      reorderings of one list have the same value on `key` at every
      position, so they can differ only in the order of equal values. */
  lemma {:induction false} SortedPermutationSameValues(r1: seq<Video>, r2: seq<Video>, key: Key, direction: Direction)
    requires multiset(r1) == multiset(r2)
    requires SortedOn(r1, key, direction) && SortedOn(r2, key, direction)
    ensures |r1| == |r2|
    ensures forall i | 0 <= i < |r1| :: Field(r1[i], key) == Field(r2[i], key)
    decreases |r1|
  {
    assert |r1| == |multiset(r1)| == |r2|;
    if r1 != [] {
      assert r2[0] in multiset(r1);
      var m := Sorting.IndexOf(r1, r2[0]);
      Sorting.MultisetRemoveFirstOf(r1, r2, m);
      SortedOnRemove(r1, m, key, direction);
      SortedOnTail(r2, key, direction);
      SortedPermutationSameValues(r1[..m] + r1[m + 1..], r2[1..], key, direction);
      SameValueUpToFirst(r1, r2, m, key, direction);
      SameValuesAfterRemoval(r1, r2, m, key);
    }
  }

  /** Three videos arrive most viewed first; the first click on the views
      header sorts them ascending, into one determined order. */
  lemma {:induction false} ViewsHeaderClickAfterLoad(v10: Video, v20: Video, v30: Video, r: seq<Video>)
    requires v10.views == 10 && v20.views == 20 && v30.views == 30
    requires multiset(r) == multiset([v30, v20, v10])
    requires SortedOn(r, Views, NextDirection(InitialSortConfig, Views))
    ensures NextDirection(InitialSortConfig, Views) == Asc
    ensures r == [v10, v20, v30]
  {
    var expected := [v10, v20, v30];
    assert multiset(expected) == multiset([v30, v20, v10]);
    assert SortedOn(expected, Views, Asc);
    SortedPermutationUnique(expected, r, Views, Asc);
  }

  /** Clicking a header other than the active one always sorts ascending. */
  lemma {:induction false} NewKeySortsAscending(config: SortConfig, key: Key)
    requires config.key != key
    ensures NextDirection(config, key) == Asc
  {
  }

  /** Clicking the active header flips the direction. */
  lemma {:induction false} SameKeyFlips(config: SortConfig)
    ensures NextDirection(config, config.key) == Opposite(config.direction)
  {
  }

  /** Repeated clicks on one header alternate: the second click reverses
      the first, the third restores it. */
  lemma {:induction false} RepeatedClicksAlternate(config: SortConfig, key: Key)
    ensures var first := SortConfig(key, NextDirection(config, key));
            var second := SortConfig(key, NextDirection(first, key));
            second.direction == Opposite(first.direction) &&
            NextDirection(second, key) == first.direction
  {
  }

  /** The list the backend sends is already in the order the initial
      `sortConfig` names. */
  lemma {:induction false} BackendOrderMatchesInitialConfig(vs: seq<Video>)
    requires Backend.MostViewedFirst(vs)
    ensures SortedOn(vs, InitialSortConfig.key, InitialSortConfig.direction)
  {
  }

  /** The state of the `App` component that sorting touches. */
  class App {
    var videos: seq<Video>
    var channelInfo: Option<ChannelInfo>
    var totalViews: nat
    var sortConfig: SortConfig

    constructor ()
      ensures videos == [] && channelInfo == None && totalViews == 0
      ensures sortConfig == SortConfig(Views, Desc)
    {
      videos := [];
      channelInfo := None;
      totalViews := 0;
      sortConfig := InitialSortConfig;
    }

    /** The state setters run when the fetch resolves with `resp`. */
    method ReceiveResponse(resp: Response)
      modifies this
      ensures videos == resp.videos && channelInfo == Some(resp.channelInfo)
      ensures totalViews == resp.totalViews
      ensures sortConfig == old(sortConfig)
    {
      videos := resp.videos;
      channelInfo := Some(resp.channelInfo);
      totalViews := resp.totalViews;
    }

    /** The header click handler `sortData(key)`. */
    method SortData(key: Key)
      modifies this
      ensures sortConfig.key == key
      ensures sortConfig.direction == NextDirection(old(sortConfig), key)
      ensures |videos| == |old(videos)| && multiset(videos) == multiset(old(videos))
      ensures SortedOn(videos, key, sortConfig.direction)
      ensures channelInfo == old(channelInfo) && totalViews == old(totalViews)
    {
      var direction := Asc;
      if sortConfig.key == key && sortConfig.direction == Asc {
        direction := Desc;
      }
      sortConfig := SortConfig(key, direction);
      var sortedData := SortedCopy(videos, key, direction);
      videos := sortedData;
    }
  }
}
