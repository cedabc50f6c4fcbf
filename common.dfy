/** Small value types shared by every module of the model. */
module Common {

  /** A value that may be absent: JavaScript's `undefined` / `null`. */
  datatype Option<T> = None | Some(value: T) {
    function GetOr(default: T): T {
      match this
      case Some(v) => v
      case None => default
    }
  }

  /** A distance that may be `Infinity`, as the pathfinding engines use it. */
  datatype Ext = Fin(n: int) | Inf {
    /** JavaScript's `<` on numbers where `Infinity` is the largest value. */
    predicate Less(other: Ext) {
      this.Fin? && (other.Inf? || this.n < other.n)
    }
  }

  /** A score that may be `Infinity` and otherwise carries a real estimate: the A* engine's
      `f` values, a path cost plus a heuristic. */
  datatype ExtReal = FinR(r: real) | InfR {
    predicate Less(other: ExtReal) {
      this.FinR? && (other.InfR? || this.r < other.r)
    }
  }

  /** Node and edge identifiers are JavaScript strings. */
  type Id = string

  /** The elements of `s` are pairwise distinct. */
  ghost predicate Distinct<T>(s: seq<T>) {
    forall i, j :: 0 <= i < j < |s| ==> s[i] != s[j]
  }

  /** Appending an element not yet present keeps a sequence free of repetitions. */
  lemma DistinctAppend<T>(s: seq<T>, x: T)
    requires Distinct(s) && x !in s
    ensures Distinct(s + [x])
  {
  }

  /** A sequence without repetitions has as many elements as its set. */
  lemma {:induction false} DistinctCard(s: seq<Id>)
    requires Distinct(s)
    ensures |set x | x in s| == |s|
  {
    if s != [] {
      var front := s[..|s| - 1];
      assert Distinct(front);
      DistinctCard(front);
      assert (set x | x in s) == (set x | x in front) + {s[|s| - 1]};
      assert s[|s| - 1] !in front;
    }
  }

  /** `s` with every element dropped that occurs earlier: the order in which a JavaScript
      `Map` or `Set` built from `s` iterates its keys. */
  function Dedup(s: seq<Id>): (r: seq<Id>)
    ensures Distinct(r)
    ensures forall x :: x in r <==> x in s
    ensures |r| <= |s|
  {
    if s == [] then []
    else
      var front := Dedup(s[..|s| - 1]);
      if s[|s| - 1] in front then front else front + [s[|s| - 1]]
  }

  /** The position of the first occurrence of `x` in `s`. */
  ghost function FirstIndex(s: seq<Id>, x: Id): (k: nat)
    requires x in s
    ensures k < |s| && s[k] == x && x !in s[..k]
  {
    if s[0] == x then 0
    else
      var k := FirstIndex(s[1..], x);
      assert s[..k + 1] == [s[0]] + s[1..][..k];
      k + 1
  }

  /** A position holding `x` with no `x` before it is the first occurrence. */
  lemma FirstIndexAt(s: seq<Id>, x: Id, k: nat)
    requires k < |s| && s[k] == x && x !in s[..k]
    ensures FirstIndex(s, x) == k
  {
  }

  /** `Dedup` lists the distinct elements of `s` in the order of their first occurrences, which
      together with its contract determines it: exactly the elements at the positions `k` where
      `s[k] !in s[..k]`, in order. */
  lemma {:induction false} DedupOrder(s: seq<Id>)
    ensures forall i, j :: 0 <= i < j < |Dedup(s)| ==> FirstIndex(s, Dedup(s)[i]) < FirstIndex(s, Dedup(s)[j])
  {
    if s != [] {
      var front, last := s[..|s| - 1], s[|s| - 1];
      DedupOrder(front);
      forall x | x in front
        ensures FirstIndex(s, x) == FirstIndex(front, x)
      {
        var k := FirstIndex(front, x);
        assert s[..k] == front[..k];
        FirstIndexAt(s, x, k);
      }
      if last !in Dedup(front) {
        assert last !in front;
        assert s[..|s| - 1] == front;
        FirstIndexAt(s, last, |s| - 1);
      }
    }
  }

  /** `s` without the element `x`, order kept: `Set.delete` on an insertion-ordered set. */
  function Remove(s: seq<Id>, x: Id): (r: seq<Id>)
    ensures forall y :: y in r <==> y in s && y != x
    ensures Distinct(s) ==> Distinct(r)
    ensures x in s && Distinct(s) ==> |r| == |s| - 1
    ensures x !in s ==> r == s
  {
    if s == [] then []
    else if s[0] == x then Remove(s[1..], x)
    else
      assert Distinct(s) ==> Distinct(s[1..]) && s[0] !in s[1..];
      [s[0]] + Remove(s[1..], x)
  }

  /** `s` is obtained from `t` by deleting elements: the kept ones keep their order. */
  ghost predicate SubsequenceOf<T>(s: seq<T>, t: seq<T>)
    decreases |t|
  {
    if s == [] then true
    else if t == [] then false
    else if s[0] == t[0] then SubsequenceOf(s[1..], t[1..])
    else SubsequenceOf(s, t[1..])
  }

  /** A subsequence of the tail is a subsequence of the whole. */
  lemma {:induction false} SkipOne<T>(s: seq<T>, t: seq<T>)
    requires t != [] && SubsequenceOf(s, t[1..])
    ensures SubsequenceOf(s, t)
    decreases |t|, 0
  {
    if s != [] && s[0] == t[0] {
      Weaken(s, t[1..]);
    }
  }

  /** Dropping the head of a subsequence keeps it a subsequence. */
  lemma {:induction false} Weaken<T>(s: seq<T>, t: seq<T>)
    requires s != [] && SubsequenceOf(s, t)
    ensures SubsequenceOf(s[1..], t)
    decreases |t|, 1
  {
    if t != [] {
      if s[0] != t[0] {
        Weaken(s, t[1..]);
      }
      SkipOne(s[1..], t);
    }
  }

  /** Removing `x` keeps the order of the other elements, repeats included. */
  lemma {:induction false} RemoveOrdered(s: seq<Id>, x: Id)
    ensures SubsequenceOf(Remove(s, x), s)
  {
    if s != [] {
      RemoveOrdered(s[1..], x);
      var rest := Remove(s[1..], x);
      if s[0] == x {
        SkipOne(rest, s);
      } else {
        assert ([s[0]] + rest)[1..] == rest;
      }
    }
  }

  /** Removing the element at position `k` of a duplicate-free list keeps the others in their
      order: the result is the list with that one position cut out. */
  lemma {:induction false} RemoveAt(s: seq<Id>, k: nat)
    requires Distinct(s) && k < |s|
    ensures Remove(s, s[k]) == s[..k] + s[k + 1..]
  {
    if k == 0 {
      assert s[0] !in s[1..];
    } else {
      assert s[1..][k - 1] == s[k];
      RemoveAt(s[1..], k - 1);
      assert s[0] != s[k];
      assert [s[0]] + (s[1..][..k - 1] + s[1..][k..]) == s[..k] + s[k + 1..];
    }
  }

  /** `Set.add` on an insertion-ordered set: appends only when absent. */
  function Add(s: seq<Id>, x: Id): (r: seq<Id>)
    ensures forall y :: y in r <==> y in s || y == x
    ensures Distinct(s) ==> Distinct(r)
    ensures x in s ==> r == s
  {
    if x in s then s else s + [x]
  }
}
