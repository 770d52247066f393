/**
 * The multi-select cursor list: a position is looked up by equality
 * (`findIndex`), pushed at the end when absent and spliced out when present.
 */
module CursorList {
  import opened FlashTypes

  predicate NoDuplicates(list: seq<Position>) {
    forall i, j :: 0 <= i < j < |list| ==> list[i] != list[j]
  }

  /** `findIndex` with position equality: the first index holding `p`, or -1 when there is none. */
  function FindIndex(list: seq<Position>, p: Position): (r: int)
    ensures -1 <= r < |list|
    ensures r == -1 <==> p !in list
    ensures r != -1 ==> list[r] == p && forall j :: 0 <= j < r ==> list[j] != p
  {
    if |list| == 0 then -1
    else if list[0] == p then 0
    else if FindIndex(list[1..], p) == -1 then -1
    else FindIndex(list[1..], p) + 1
  }

  /**
   * The list after one toggle of `p`: `push` when absent, `splice(index, 1)`
   * when present. Exactly one occurrence of `p` is added or removed.
   */
  function Toggle(list: seq<Position>, p: Position): (r: seq<Position>)
    ensures p !in list ==> r == list + [p]
    ensures p in list ==> |r| == |list| - 1 && multiset(r) == multiset(list) - multiset{p}
  {
    var i := FindIndex(list, p);
    if i == -1 then list + [p]
    else
      assert list == list[..i] + [list[i]] + list[i + 1..];
      list[..i] + list[i + 1..]
  }

  /** A present position is removed at its (unique) index and nothing else moves. */
  lemma ToggleRemovesAtIndex(list: seq<Position>, p: Position, i: nat)
    requires NoDuplicates(list)
    requires i < |list| && list[i] == p
    ensures Toggle(list, p) == list[..i] + list[i + 1..]
  {
  }

  /** Afterwards `q` is in the list exactly when it was before, except that `p` flips. */
  lemma ToggleMembership(list: seq<Position>, p: Position)
    requires NoDuplicates(list)
    ensures forall q :: q in Toggle(list, p) <==> (q in list && q != p) || (q !in list && q == p)
  {
    var i := FindIndex(list, p);
    if i != -1 {
      var r := list[..i] + list[i + 1..];
      forall q ensures q in r <==> q in list && q != p {
        if q in r {
          var k :| 0 <= k < |r| && r[k] == q;
          var j := if k < i then k else k + 1;
          assert list[j] == q && j != i;
        }
        if q in list && q != p {
          var j :| 0 <= j < |list| && list[j] == q;
          assert j != i;
          assert r[if j < i then j else j - 1] == q;
        }
      }
    }
  }

  /** Toggling never introduces a duplicate. */
  lemma ToggleKeepsNoDuplicates(list: seq<Position>, p: Position)
    requires NoDuplicates(list)
    ensures NoDuplicates(Toggle(list, p))
  {
    var i := FindIndex(list, p);
    var r := Toggle(list, p);
    if i == -1 {
      forall a, b | 0 <= a < b < |r| ensures r[a] != r[b] {
        if b == |list| {
          assert r[a] == list[a];
        }
      }
    } else {
      forall a, b | 0 <= a < b < |r| ensures r[a] != r[b] {
        var a' := if a < i then a else a + 1;
        var b' := if b < i then b else b + 1;
        assert r[a] == list[a'] && r[b] == list[b'] && a' < b';
      }
    }
  }

  /** Selecting an unselected position and then selecting it again leaves the list as it was. */
  lemma ToggleTwiceAbsent(list: seq<Position>, p: Position)
    requires p !in list
    ensures Toggle(Toggle(list, p), p) == list
  {
    var once := list + [p];
    assert forall j :: 0 <= j < |list| ==> once[j] == list[j];
    assert once[..|list|] == list;
  }

  /** Deselecting a selected position and then selecting it again moves it to the end. */
  lemma ToggleTwicePresent(list: seq<Position>, p: Position)
    requires NoDuplicates(list) && p in list
    ensures Toggle(Toggle(list, p), p) == Toggle(list, p) + [p]
    ensures p !in Toggle(list, p)
  {
    ToggleMembership(list, p);
  }
}
