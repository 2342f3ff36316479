/** The children list of the task-list VBox, as the row menu actions use it.

    The list operations are those of a JavaFX observable list: `indexOf`
    compares by identity (a row is a node that does not override `equals`),
    `remove(int)` and `add(int, E)` throw IndexOutOfBoundsException outside
    their range, and `remove(Object)` drops the first occurrence. A node's
    children list also refuses a node it already holds; `InsertAt` does not
    model that check, which never fires here because a row is removed before
    it is added back and the rows stay distinct. On top of
    them sit the specifications of the "up", "down" and "delete" actions and
    the lemmas about them. */
module Children {

  /** The exception an indexed list operation throws. */
  datatype Error = IndexOutOfBounds(index: int)

  datatype Result<T> = Ok(value: T) | Err(error: Error)

  /** No row occurs twice in the list. */
  predicate Distinct<T(==)>(s: seq<T>)
  {
    forall i, j :: 0 <= i < j < |s| ==> s[i] != s[j]
  }

  /** `List.indexOf`: the first position holding `x`, or -1. */
  function IndexOf<T(==)>(s: seq<T>, x: T): (r: int)
    ensures -1 <= r < |s|
    ensures r == -1 <==> x !in s
    ensures 0 <= r ==> s[r] == x && x !in s[..r]
  {
    if s == [] then -1
    else if s[0] == x then 0
    else
      var k := IndexOf(s[1..], x);
      assert s[1..][..k + 1] == s[1..k + 2];
      if k < 0 then -1 else k + 1
  }

  /** `List.remove(int)`: the list without the element at `i`, or the
      exception when `i` is not a valid position. */
  function RemoveAt<T>(s: seq<T>, i: int): (r: Result<seq<T>>)
    ensures r.Ok? <==> 0 <= i < |s|
    ensures r.Err? ==> r.error == IndexOutOfBounds(i)
    ensures r.Ok? ==> |r.value| == |s| - 1
    ensures r.Ok? ==> forall k :: 0 <= k < |r.value| ==> r.value[k] == if k < i then s[k] else s[k + 1]
  {
    if 0 <= i < |s| then Ok(s[..i] + s[i + 1..]) else Err(IndexOutOfBounds(i))
  }

  /** `List.add(int, E)`: `x` inserted so that it lands at position `i`,
      or the exception when `i` is beyond the end. */
  function InsertAt<T>(s: seq<T>, i: int, x: T): (r: Result<seq<T>>)
    ensures r.Ok? <==> 0 <= i <= |s|
    ensures r.Err? ==> r.error == IndexOutOfBounds(i)
    ensures r.Ok? ==> |r.value| == |s| + 1 && r.value[i] == x
    ensures r.Ok? ==> forall k :: 0 <= k < |r.value| && k != i ==> r.value[k] == if k < i then s[k] else s[k - 1]
  {
    if 0 <= i <= |s| then Ok(s[..i] + [x] + s[i..]) else Err(IndexOutOfBounds(i))
  }

  /** The reference meaning of a reorder: positions `i` and `j` trade their
      rows and every other position keeps its row. */
  function Swap<T>(s: seq<T>, i: nat, j: nat): (r: seq<T>)
    requires i < |s| && j < |s|
  {
    s[i := s[j]][j := s[i]]
  }

  /** The "up" action: a row trades places with its predecessor; on the
      first row, or on a row no longer in the list, nothing happens. */
  function MoveUp<T(==)>(s: seq<T>, x: T): (r: seq<T>)
    ensures |r| == |s|
    ensures IndexOf(s, x) <= 0 ==> r == s
    ensures 0 < IndexOf(s, x) ==>
      var i := IndexOf(s, x);
      r[i - 1] == x && r[i] == s[i - 1] &&
      forall k :: 0 <= k < |s| && k != i - 1 && k != i ==> r[k] == s[k]
  {
    var i := IndexOf(s, x);
    if i > 0 then Swap(s, i - 1, i) else s
  }

  /** The "down" action: a row trades places with its successor; on the
      last row, or on any row of an empty list, nothing happens. A row no
      longer in a non-empty list passes the guard with index -1 and
      `remove(-1)` throws before the list is touched. */
  function MoveDown<T(==)>(s: seq<T>, x: T): (r: Result<seq<T>>)
    ensures r.Err? <==> x !in s && s != []
    ensures r.Err? ==> r.error == IndexOutOfBounds(-1)
    ensures r.Ok? ==> |r.value| == |s|
    ensures r.Ok? && (x !in s || IndexOf(s, x) == |s| - 1) ==> r.value == s
    ensures 0 <= IndexOf(s, x) < |s| - 1 ==>
      var i := IndexOf(s, x);
      r.Ok? && r.value[i] == s[i + 1] && r.value[i + 1] == x &&
      forall k :: 0 <= k < |s| && k != i && k != i + 1 ==> r.value[k] == s[k]
  {
    var i := IndexOf(s, x);
    if i < |s| - 1 then
      if i < 0 then Err(IndexOutOfBounds(i)) else Ok(Swap(s, i, i + 1))
    else Ok(s)
  }

  /** The "delete" action, `List.remove(Object)`: the first occurrence of
      `x` is dropped; a row not in the list leaves it unchanged. */
  function Delete<T(==)>(s: seq<T>, x: T): (r: seq<T>)
    ensures x !in s ==> r == s
    ensures x in s ==> |r| == |s| - 1
  {
    var i := IndexOf(s, x);
    if i < 0 then s else s[..i] + s[i + 1..]
  }

  /** The reference meaning of deleting a row: keep every other row, in
      order. */
  function Without<T(==)>(s: seq<T>, x: T): (r: seq<T>)
    ensures x !in r
    ensures forall k :: 0 <= k < |r| ==> r[k] in s
    ensures forall k :: 0 <= k < |s| && s[k] != x ==> s[k] in r
  {
    if s == [] then []
    else (if s[0] == x then [] else [s[0]]) + Without(s[1..], x)
  }

  /** A reorder request from a row's menu. */
  datatype Move<T> = Up(row: T) | Down(row: T)

  /** The list after a series of "up" and "down" actions; a "down" that
      throws leaves the list as it was and the next action goes on. */
  function Replay<T(==)>(s: seq<T>, moves: seq<Move<T>>): (r: seq<T>)
    ensures |r| == |s|
    ensures Distinct(s) ==> Distinct(r)
    decreases |moves|
  {
    if moves == [] then s
    else
      var next := match moves[0]
        case Up(x) => MoveUp(s, x)
        case Down(x) => (match MoveDown(s, x) case Ok(t) => t case Err(_) => s);
      assert Distinct(s) ==> Distinct(next) by {
        if Distinct(s) { MovesKeepDistinct(s, moves[0].row); }
      }
      Replay(next, moves[1..])
  }

  // ---------------------------------------------------------------------
  // Lemmas

  /** The list operations `remove(i)` then `add(i - 1, x)` that "up"
      performs are the swap of positions `i - 1` and `i`. */
  lemma RemoveInsertBelow<T>(s: seq<T>, i: nat)
    requires 0 < i < |s|
    ensures RemoveAt(s, i).Ok? && InsertAt(RemoveAt(s, i).value, i - 1, s[i]).Ok?
    ensures InsertAt(RemoveAt(s, i).value, i - 1, s[i]).value == Swap(s, i - 1, i)
  {
    var t := RemoveAt(s, i).value;
    var u := InsertAt(t, i - 1, s[i]).value;
    assert |u| == |s|;
    forall k | 0 <= k < |s| ensures u[k] == Swap(s, i - 1, i)[k] {
      if k < i - 1 {
      } else if k == i - 1 {
      } else if k == i {
        assert u[k] == t[k - 1];
      } else {
        assert u[k] == t[k - 1] == s[k];
      }
    }
  }

  /** The list operations `remove(i)` then `add(i + 1, x)` that "down"
      performs are the swap of positions `i` and `i + 1`. */
  lemma RemoveInsertAbove<T>(s: seq<T>, i: nat)
    requires i + 1 < |s|
    ensures RemoveAt(s, i).Ok? && InsertAt(RemoveAt(s, i).value, i + 1, s[i]).Ok?
    ensures InsertAt(RemoveAt(s, i).value, i + 1, s[i]).value == Swap(s, i, i + 1)
  {
    var t := RemoveAt(s, i).value;
    var u := InsertAt(t, i + 1, s[i]).value;
    assert |u| == |s|;
    forall k | 0 <= k < |s| ensures u[k] == Swap(s, i, i + 1)[k] {
      if k < i {
      } else if k == i {
        assert u[k] == t[k] == s[k + 1];
      } else if k == i + 1 {
      } else {
        assert u[k] == t[k - 1] == s[k];
      }
    }
  }

  /** Swapping the same two positions again undoes a swap. */
  lemma SwapTwice<T>(s: seq<T>, i: nat, j: nat)
    requires i < |s| && j < |s|
    ensures Swap(Swap(s, i, j), i, j) == s
  {
  }

  /** A swap rearranges the rows: it neither adds nor loses one. */
  lemma SwapPermutes<T>(s: seq<T>, i: nat, j: nat)
    requires i < |s| && j < |s|
    ensures multiset(Swap(s, i, j)) == multiset(s)
  {
  }

  /** A swap keeps the rows pairwise distinct. */
  lemma SwapKeepsDistinct<T>(s: seq<T>, i: nat, j: nat)
    requires i < |s| && j < |s| && Distinct(s)
    ensures Distinct(Swap(s, i, j))
  {
    var r := Swap(s, i, j);
    // position p of r holds the row from position p' of s
    forall p, q | 0 <= p < q < |r| ensures r[p] != r[q] {
      var p' := if p == i then j else if p == j then i else p;
      var q' := if q == i then j else if q == j then i else q;
      assert r[p] == s[p'] && r[q] == s[q'] && p' != q';
    }
  }

  /** "up" and "down" only rearrange the rows. */
  lemma MovesPermute<T>(s: seq<T>, x: T)
    ensures multiset(MoveUp(s, x)) == multiset(s)
    ensures MoveDown(s, x).Ok? ==> multiset(MoveDown(s, x).value) == multiset(s)
  {
    var i := IndexOf(s, x);
    if i > 0 { SwapPermutes(s, i - 1, i); }
    if 0 <= i < |s| - 1 { SwapPermutes(s, i, i + 1); }
  }

  /** "up" and "down" keep the rows pairwise distinct. */
  lemma MovesKeepDistinct<T>(s: seq<T>, x: T)
    requires Distinct(s)
    ensures Distinct(MoveUp(s, x))
    ensures MoveDown(s, x).Ok? ==> Distinct(MoveDown(s, x).value)
  {
    var i := IndexOf(s, x);
    if i > 0 { SwapKeepsDistinct(s, i - 1, i); }
    if 0 <= i < |s| - 1 { SwapKeepsDistinct(s, i, i + 1); }
  }

  /** `IndexOf` finds a row at the first position that holds it. */
  lemma IndexOfAt<T>(s: seq<T>, x: T, k: nat)
    requires k < |s| && s[k] == x && x !in s[..k]
    ensures IndexOf(s, x) == k
  {
  }

  /** In a list without duplicates, every row is found where it stands. */
  lemma DistinctIndexOf<T>(s: seq<T>, k: nat)
    requires Distinct(s) && k < |s|
    ensures IndexOf(s, s[k]) == k
  {
    IndexOfAt(s, s[k], k);
  }

  /** "up" on a row that is not the first, then "down" on the same row,
      restores the list. */
  lemma UpThenDown<T>(s: seq<T>, x: T)
    requires IndexOf(s, x) > 0
    ensures MoveDown(MoveUp(s, x), x) == Ok(s)
  {
    var i := IndexOf(s, x);
    var t := Swap(s, i - 1, i);
    assert MoveUp(s, x) == t;
    assert t[..i - 1] == s[..i][..i - 1];
    IndexOfAt(t, x, i - 1);
    SwapTwice(s, i - 1, i);
    assert MoveDown(t, x) == Ok(Swap(t, i - 1, i));
  }

  /** "down" on a row that is not the last, then "up" on the same row,
      restores a list without duplicates. */
  lemma DownThenUp<T>(s: seq<T>, x: T)
    requires Distinct(s) && 0 <= IndexOf(s, x) < |s| - 1
    ensures MoveDown(s, x).Ok? && MoveUp(MoveDown(s, x).value, x) == s
  {
    var i := IndexOf(s, x);
    var t := Swap(s, i, i + 1);
    assert MoveDown(s, x) == Ok(t);
    SwapKeepsDistinct(s, i, i + 1);
    DistinctIndexOf(t, i + 1);
    SwapTwice(s, i, i + 1);
    assert MoveUp(t, x) == Swap(t, i, i + 1);
  }

  /** Any series of "up" and "down" actions keeps the same rows. */
  lemma {:induction false} ReplayPermutes<T>(s: seq<T>, moves: seq<Move<T>>)
    ensures |Replay(s, moves)| == |s|
    ensures multiset(Replay(s, moves)) == multiset(s)
    decreases |moves|
  {
    if moves != [] {
      var x := moves[0].row;
      MovesPermute(s, x);
      var next := match moves[0]
        case Up(x) => MoveUp(s, x)
        case Down(x) => (match MoveDown(s, x) case Ok(t) => t case Err(_) => s);
      ReplayPermutes(next, moves[1..]);
    }
  }

  /** Removing a row that does not occur changes nothing. */
  lemma {:induction false} WithoutAbsent<T>(s: seq<T>, x: T)
    requires x !in s
    ensures Without(s, x) == s
  {
    if s != [] {
      WithoutAbsent(s[1..], x);
    }
  }

  /** In a list without duplicates, "delete" drops exactly that row and
      keeps the others in their order. */
  lemma {:induction false} DeleteIsWithout<T>(s: seq<T>, x: T)
    requires Distinct(s)
    ensures Delete(s, x) == Without(s, x)
  {
    if s == [] {
    } else if s[0] == x {
      assert x !in s[1..];
      WithoutAbsent(s[1..], x);
      assert Delete(s, x) == s[1..];
    } else {
      var t := s[1..];
      assert Distinct(t) by {
        forall p, q | 0 <= p < q < |t| ensures t[p] != t[q] {
          assert t[p] == s[p + 1] && t[q] == s[q + 1];
        }
      }
      DeleteIsWithout(t, x);
      DeleteBehindHead(s, x);
    }
  }

  /** "delete" of a row other than the first keeps the first row in front. */
  lemma DeleteBehindHead<T>(s: seq<T>, x: T)
    requires s != [] && s[0] != x
    ensures Delete(s, x) == [s[0]] + Delete(s[1..], x)
  {
    var t := s[1..];
    var k := IndexOf(t, x);
    assert IndexOf(s, x) == if k < 0 then -1 else k + 1;
    if k >= 0 {
      assert s[..k + 1] == [s[0]] + t[..k];
      assert s[k + 2..] == t[k + 1..];
    }
  }

  /** "delete" drops exactly one occurrence: the rows left are the old ones
      less that row. */
  lemma DeleteRemovesOne<T>(s: seq<T>, x: T)
    requires x in s
    ensures multiset(Delete(s, x)) == multiset(s) - multiset{x}
  {
    var i := IndexOf(s, x);
    assert s == s[..i] + [x] + s[i + 1..];
    assert Delete(s, x) == s[..i] + s[i + 1..];
  }

  /** "delete" keeps the rows pairwise distinct and the row is gone. */
  lemma DeleteKeepsDistinct<T>(s: seq<T>, x: T)
    requires Distinct(s)
    ensures Distinct(Delete(s, x)) && x !in Delete(s, x)
  {
    DeleteIsWithout(s, x);
    if x in s {
      RemoveAtKeepsDistinct(s, IndexOf(s, x));
    }
  }

  /** Removing any position keeps the other rows pairwise distinct. */
  lemma RemoveAtKeepsDistinct<T>(s: seq<T>, i: nat)
    requires Distinct(s) && i < |s|
    ensures Distinct(RemoveAt(s, i).value)
  {
    var r := RemoveAt(s, i).value;
    forall p, q | 0 <= p < q < |r| ensures r[p] != r[q] {
      var p' := if p < i then p else p + 1;
      var q' := if q < i then q else q + 1;
      assert r[p] == s[p'] && r[q] == s[q'] && p' < q';
    }
  }

  /** Deleting a row twice is the same as deleting it once. */
  lemma DeleteIdempotent<T>(s: seq<T>, x: T)
    requires Distinct(s)
    ensures Delete(Delete(s, x), x) == Delete(s, x)
  {
    DeleteKeepsDistinct(s, x);
  }

  /** Appending a row that is not yet in the list keeps the rows pairwise
      distinct. */
  lemma AppendKeepsDistinct<T>(s: seq<T>, x: T)
    requires Distinct(s) && x !in s
    ensures Distinct(s + [x])
  {
  }
}
