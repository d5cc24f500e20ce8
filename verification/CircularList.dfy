/** A list with a cursor that goes round in circles. */
module CircularLists {
  import opened Sequences

  // ---------- circular order ----------

  /** All elements in circular order, beginning at position `cur`. */
  function From<T>(list: seq<T>, cur: nat): (r: seq<T>)
    ensures |r| == |list|
  {
    if cur < |list| then list[cur..] + list[..cur] else list
  }

  function Moved<T>(r: seq<T>): (m: seq<T>)
    ensures |m| == |r|
  {
    if r == [] then [] else r[1..] + [r[0]]
  }

  function MovedBy<T>(r: seq<T>, n: nat): (m: seq<T>)
    ensures |m| == |r|
  {
    if n == 0 then r else Moved(MovedBy(r, n - 1))
  }

  lemma {:induction false} MovedByAt<T>(r: seq<T>, n: nat)
    requires n <= |r|
    ensures MovedBy(r, n) == r[n..] + r[..n]
  {
    if n > 0 {
      MovedByAt(r, n - 1);
      var m := r[n - 1..] + r[..n - 1];
      assert Moved(m) == m[1..] + [m[0]];
      assert m[1..] == r[n..] + r[..n - 1];
      assert r[..n] == r[..n - 1] + [r[n - 1]];
    }
  }

  /** As many moves as there are elements come back to the start, with a different element in front before each. */
  lemma OnceAround<T>(r: seq<T>)
    ensures MovedBy(r, |r|) == r
    ensures forall n :: 0 <= n < |r| ==> MovedBy(r, n)[0] == r[n]
  {
    MovedByAt(r, |r|);
    forall n | 0 <= n < |r| ensures MovedBy(r, n)[0] == r[n] {
      MovedByAt(r, n);
    }
  }

  /** How many elements are between the cursor and position `p`, going round. */
  function Offset(p: nat, cur: nat, n: nat): (k: nat)
    requires p < n && cur < n
    ensures k < n
  {
    if p >= cur then p - cur else n - cur + p
  }

  function Dropped<T>(list: seq<T>, p: nat): (rest: seq<T>)
    requires p < |list|
    ensures |rest| == |list| - 1
  {
    list[..p] + list[p + 1..]
  }

  /** Without the element at position `p`, the cursor keeps its element or goes to the next one. */
  lemma FromWithout<T>(list: seq<T>, cur: nat, p: nat)
    requires cur < |list| && p < |list|
    ensures var r, k := From(list, cur), Offset(p, cur, |list|);
      var rest := Dropped(list, p);
      var c := if p < cur then cur - 1 else if cur < |rest| then cur else 0;
      r[k] == list[p] && From(rest, c) == r[..k] + r[k + 1..]
  {
    hide From;
    if p >= cur {
      var a, b, x, c := list[..cur], list[cur..p], list[p], list[p + 1..];
      assert list[..p] == a + b;
      assert list == a + b + [x] + c;
      Behind(a, b, x, c);
    } else {
      var a, x, b, c := list[..p], list[p], list[p + 1..cur], list[cur..];
      assert list[p + 1..] == b + c && a + (b + c) == a + b + c;
      assert list == a + [x] + b + c;
      Before(a, x, b, c);
    }
  }

  /** The circular order `round` is the one of the list without its element at position `p`. */
  ghost predicate RemovedAt<T>(list: seq<T>, cur: nat, p: nat, round: seq<T>)
    requires p < |list| && cur < |list|
  {
    var k := Offset(p, cur, |list|);
    round == From(list, cur)[..k] + From(list, cur)[k + 1..]
  }

  lemma FromRemoved<T>(list: seq<T>, cur: nat, p: nat)
    requires cur < |list| && p < |list|
    ensures RemovedAt(list, cur, p, From(Dropped(list, p),
      if p < cur then cur - 1 else if cur < |list| - 1 then cur else 0))
  {
    FromWithout(list, cur, p);
  }

  lemma Without<T>(b: seq<T>, x: T, d: seq<T>)
    ensures var r := b + [x] + d; r[|b|] == x && r[..|b|] + r[|b| + 1..] == b + d
  {
  }

  lemma Turned<T>(a: seq<T>, b: seq<T>)
    requires b != []
    ensures From(a + b, |a|) == b + a
  {
  }

  /** The element `x` is at the cursor or behind it, with `b` between them. */
  lemma Behind<T>(a: seq<T>, b: seq<T>, x: T, c: seq<T>)
    ensures var list, rest := a + b + [x] + c, a + b + c;
      var r, k := From(list, |a|), |b|;
      r[k] == x && r[..k] + r[k + 1..] == b + c + a &&
      From(rest, if |a| < |rest| then |a| else 0) == b + c + a
  {
    var list, rest := a + b + [x] + c, a + b + c;
    assert list == a + (b + [x] + c) && rest == a + (b + c);
    Turned(a, b + [x] + c);
    Without(b, x, c + a);
    assert b + [x] + c + a == b + [x] + (c + a);
    assert b + c + a == b + (c + a);
    if b + c == [] {
      assert rest == a && b + c + a == a && From(a, 0) == a;
    } else {
      Turned(a, b + c);
    }
  }

  /** The element `x` is before the cursor, with `b` between them. */
  lemma Before<T>(a: seq<T>, x: T, b: seq<T>, c: seq<T>)
    requires c != []
    ensures var list, rest := a + [x] + b + c, a + b + c;
      var cur := |a| + 1 + |b|;
      var r, k := From(list, cur), |c| + |a|;
      r[k] == x && r[..k] + r[k + 1..] == c + a + b && From(rest, cur - 1) == c + a + b
  {
    hide From;
    var head := a + [x] + b;
    Turned(head, c);
    Turned(a + b, c);
    Without(c + a, x, b);
    Grouped(c, a + [x], b);
    Grouped(c, a, [x]);
    Grouped(c, a, b);
  }

  /** The first position of an element. */
  function First<T(==)>(s: seq<T>, x: T): (i: nat)
    requires x in s
    ensures i < |s| && s[i] == x && x !in s[..i]
  {
    if s[0] == x then 0
    else
      var j := First(s[1..], x);
      assert s[..j + 1] == [s[0]] + s[1..][..j];
      j + 1
  }

  lemma {:induction false} FirstAt<T>(s: seq<T>, x: T, p: nat)
    requires p < |s| && s[p] == x && forall j :: 0 <= j < p ==> s[j] != x
    ensures First(s, x) == p
  {
    if p > 0 {
      FirstAt(s[1..], x, p - 1);
    }
  }

  // ---------- the list ----------

  class CircularList<T(==)> {
    var list: seq<T>
    var cur: nat
    var size: nat

    constructor ()
      ensures Valid() && list == []
    {
      list, cur, size := [], 0, 0;
    }

    /** The cursor is at an element while there are any. */
    ghost predicate Valid()
      reads this
    {
      size == |list| && (size > 0 ==> cur < size)
    }

    /** The elements in circular order, beginning at the cursor. */
    ghost function Round(): (r: seq<T>)
      reads this
      ensures |r| == |list|
    {
      From(list, cur)
    }

    /** Copies walk along both lists until the cursor of the other one is reached. */
    constructor Copy(other: CircularList<T>)
      requires other.Valid()
      ensures Valid() && Round() == other.Round() && list == other.list
    {
      list, size, cur := other.list, other.size, 0;
      new;
      if size != 0 {
        var at := 0;
        while at != other.cur
          invariant at <= other.cur && cur == at && list == other.list && size == other.size
          decreases other.cur - at
        {
          at := at + 1;
          cur := cur + 1;
        }
      }
    }

    method Clear()
      modifies this
      ensures Valid() && list == []
    {
      list, size := [], 0;
    }

    method Find(t: T) returns (found: bool)
      requires Valid()
      ensures found <==> t in Round()
    {
      var p := Search(t);
      found := size != 0 && p != |list|;
      if cur < |list| {
        assert list == list[..cur] + list[cur..];
      }
    }

    /** The first position of the element, or the end. */
    method Search(t: T) returns (p: nat)
      ensures p == if t in list then First(list, t) else |list|
    {
      p := 0;
      while p != |list| && list[p] != t
        invariant p <= |list| && forall j :: 0 <= j < p ==> list[j] != t
        decreases |list| - p
      {
        p := p + 1;
      }
      if p < |list| {
        FirstAt(list, t, p);
      }
    }

    /** Before the cursor is behind everything else. */
    method Insert(t: T)
      requires Valid()
      modifies this
      ensures Valid() && Round() == old(Round()) + [t]
      ensures list == if old(list) == [] then [t] else old(list[..cur] + [t] + list[cur..])
    {
      if size == 0 {
        list := list + [t];
        cur := 0;
      } else {
        list := list[..cur] + [t] + list[cur..];
        cur := cur + 1;
      }
      size := size + 1;
    }

    method InsertFront(t: T)
      requires Valid()
      modifies this
      ensures Valid()
      ensures Round() == if old(Round()) == [] then [t] else [old(Round())[0], t] + old(Round())[1..]
      ensures list == if old(list) == [] then [t] else old(list[..cur + 1] + [t] + list[cur + 1..])
    {
      if size == 0 {
        list := list + [t];
        cur := 0;
      } else {
        list := list[..cur + 1] + [t] + list[cur + 1..];
      }
      size := size + 1;
    }

    /** Removes the element at the cursor, which goes on to the next one. */
    method Erase()
      requires Valid()
      modifies this
      ensures Valid() && Round() == if old(Round()) == [] then [] else old(Round())[1..]
      ensures list == if old(list) == [] then [] else Dropped(old(list), old(cur))
    {
      if size == 0 {
        return;
      }
      FromWithout(list, cur, cur);
      var drop := cur;
      list := list[..drop] + list[drop + 1..];
      if cur == |list| {
        cur := 0;
      }
      size := size - 1;
    }

    /**
     * Removes the first of the equal elements from the beginning of the list. If there is none, the source erases the
     * end of the list, which C++ leaves undefined; its guard does not stop that, since it tests the cursor.
     */
    method EraseElem(t: T) returns (ok: bool)
      requires Valid()
      modifies this
      ensures Valid()
      ensures ok <==> old(list) == [] || t in old(list)
      ensures !ok || old(list) == [] ==> list == old(list) && cur == old(cur)
      ensures ok && old(list) != [] ==> RemovedAt(old(list), old(cur), First(old(list), t), Round())
      ensures ok && old(list) != [] ==> list == Dropped(old(list), First(old(list), t))
    {
      if size == 0 {
        return true;
      }
      hide From, First, RemovedAt, Dropped;
      var p := Search(t);
      if cur == |list| {
        return true;
      }
      if p == |list| {
        return false;
      }
      ok := true;
      FromRemoved(list, cur, p);
      if cur == p {
        cur := cur + 1;
        if cur == |list| {
          cur := 0;
        }
      }
      Unlink(p);
    }

    /** For instance, the guard lets an absent element through to the erasure of the end. */
    static method EraseAbsent(x: T, y: T) returns (ok: bool, atEnd: bool)
      requires x != y
      ensures !ok && !atEnd
    {
      var l := new CircularList();
      l.Insert(x);
      atEnd := l.cur == |l.list|;
      ok := l.EraseElem(y);
    }

    /** Takes one element out of the list; the cursor stays at its own element. */
    method Unlink(p: nat)
      requires size == |list| && p < size && (size > 1 ==> cur < size && cur != p)
      modifies this
      ensures list == Dropped(old(list), p) && size == |list|
      ensures cur == if p < old(cur) then old(cur) - 1 else old(cur)
    {
      list := list[..p] + list[p + 1..];
      if p < cur {
        cur := cur - 1;
      }
      size := size - 1;
    }

    method Rewind()
      requires Valid()
      modifies this
      ensures Valid() && list == old(list) && Round() == list
    {
      cur := 0;
    }

    method Move()
      requires Valid()
      modifies this
      ensures Valid() && list == old(list) && Round() == Moved(old(Round()))
    {
      if size > 0 {
        cur := cur + 1;
        if cur == |list| {
          cur := 0;
        }
      }
    }

    method Current() returns (t: T)
      requires Valid() && list != []
      ensures t == Round()[0]
    {
      t := list[cur];
    }

    /** Once around: every element comes by once, in circular order, and the cursor is back where it was. */
    method Tour() returns (visited: seq<T>)
      requires Valid()
      modifies this
      ensures Valid() && visited == old(Round()) == Round()
    {
      hide From, Moved;
      ghost var r := Round();
      OnceAround(r);
      visited := [];
      for n := 0 to size
        invariant Valid() && size == |r| && Round() == MovedBy(r, n) && visited == r[..n]
      {
        var t := Current();
        visited := visited + [t];
        Move();
      }
    }
  }
}
