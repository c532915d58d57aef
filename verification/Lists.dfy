// The intrusive singly linked lists: 137 hash chains and the free list, threaded
// through pointer cells. A cell is either the head of a list or the first field of
// a record. `lists` names the records of each list in order; `owner` gives each
// listed record the one list it is on.

module Lists {
  import opened FileImage

  // The record at position i, or the end mark.
  function Nth(s: seq<nat>, i: nat): nat {
    if i < |s| then s[i] else 0
  }

  // The cell that points at position i.
  function Pred(head: nat, s: seq<nat>, i: nat): nat
    requires i <= |s|
  {
    if i == 0 then head else s[i - 1]
  }

  ghost predicate Linked(ptr: map<nat, nat>, head: nat, s: seq<nat>) {
    forall i :: 0 <= i <= |s| ==>
      Pred(head, s, i) in ptr && ptr[Pred(head, s, i)] == Nth(s, i)
  }

  ghost predicate Owns(owner: map<nat, nat>, head: nat, s: seq<nat>) {
    && (forall i :: 0 <= i < |s| ==> s[i] in owner && owner[s[i]] == head)
    && (forall i, j :: 0 <= i < j < |s| ==> s[i] != s[j])
  }

  ghost predicate WellLinked(ptr: map<nat, nat>, lists: map<nat, seq<nat>>, owner: map<nat, nat>) {
    && (forall h :: IsHead(h) ==>
      h in lists && Linked(ptr, h, lists[h]) && Owns(owner, h, lists[h]))
    && (forall x :: x in owner ==>
      !IsHead(x) && IsHead(owner[x]) && owner[x] in lists && x in lists[owner[x]])
  }

  function Without<T>(s: seq<T>, i: nat): (t: seq<T>)
    requires i < |s|
    ensures |t| == |s| - 1
    ensures forall j :: 0 <= j < |t| ==> t[j] == if j < i then s[j] else s[j + 1]
  {
    s[..i] + s[i + 1..]
  }

  // ----- taking a record out of its list -----

  lemma UnlinkOne(ptr: map<nat, nat>, owner: map<nat, nat>, head: nat, s: seq<nat>, i: nat)
    requires Linked(ptr, head, s) && Owns(owner, head, s) && i < |s|
    requires head !in s
    ensures s[i] in ptr
    ensures Linked(ptr[Pred(head, s, i) := ptr[s[i]]], head, Without(s, i))
    ensures Owns(owner - {s[i]}, head, Without(s, i))
  {
    var p, t := Pred(head, s, i), Without(s, i);
    assert Pred(head, s, i + 1) == s[i];
    var ptr' := ptr[p := ptr[s[i]]];
    forall j | 0 <= j <= |t|
      ensures Pred(head, t, j) in ptr' && ptr'[Pred(head, t, j)] == Nth(t, j)
    {
      if j < i {
        assert Pred(head, t, j) == Pred(head, s, j) && Nth(t, j) == Nth(s, j);
      } else if j == i {
        assert Pred(head, t, j) == p && Nth(t, j) == Nth(s, i + 1);
      } else {
        assert Pred(head, t, j) == Pred(head, s, j + 1) && Nth(t, j) == Nth(s, j + 1);
      }
    }
  }

  lemma OtherList(ptr: map<nat, nat>, owner: map<nat, nat>, head: nat, s: seq<nat>,
                  c: nat, v: nat, x: nat)
    requires Linked(ptr, head, s) && Owns(owner, head, s)
    requires c != head && c !in s && x !in s
    ensures Linked(ptr[c := v], head, s)
    ensures Owns(owner - {x}, head, s)
  {
  }

  lemma Elsewhere(ptr: map<nat, nat>, lists: map<nat, seq<nat>>, owner: map<nat, nat>,
                  g: nat, h: nat, x: nat)
    requires WellLinked(ptr, lists, owner) && IsHead(g) && IsHead(h) && g != h
    requires x in lists[g]
    ensures x !in lists[h]
  {
    assert Owns(owner, g, lists[g]);
    assert Owns(owner, h, lists[h]);
  }

  lemma HeadUnlisted(ptr: map<nat, nat>, lists: map<nat, seq<nat>>, owner: map<nat, nat>,
                     g: nat, h: nat)
    requires WellLinked(ptr, lists, owner) && IsHead(g) && IsHead(h)
    ensures h !in lists[g]
  {
    assert Owns(owner, g, lists[g]);
  }

  lemma HeadIsCell(ptr: map<nat, nat>, lists: map<nat, seq<nat>>, owner: map<nat, nat>, h: nat)
    requires WellLinked(ptr, lists, owner) && IsHead(h)
    ensures h in ptr && h in lists && ptr[h] == Nth(lists[h], 0)
  {
    assert Linked(ptr, h, lists[h]);
    assert Pred(h, lists[h], 0) == h;
  }

  lemma Reachable(ptr: map<nat, nat>, lists: map<nat, seq<nat>>, owner: map<nat, nat>, h: nat, i: nat)
    requires WellLinked(ptr, lists, owner) && IsHead(h) && i < |lists[h]|
    ensures h in ptr && lists[h][i] in ptr && lists[h][i] in owner
    ensures owner[lists[h][i]] == h && !IsHead(lists[h][i])
    ensures Pred(h, lists[h], i) in ptr
  {
    assert Linked(ptr, h, lists[h]) && Owns(owner, h, lists[h]);
    assert Pred(h, lists[h], i + 1) == lists[h][i] && Pred(h, lists[h], 0) == h;
    assert Nth(lists[h], i) == lists[h][i];
  }

  ghost function UnlinkPtr(ptr: map<nat, nat>, lists: map<nat, seq<nat>>, h: nat, i: nat): map<nat, nat>
    requires h in lists && i < |lists[h]| && lists[h][i] in ptr
  {
    ptr[Pred(h, lists[h], i) := ptr[lists[h][i]]]
  }

  lemma Unlink(ptr: map<nat, nat>, lists: map<nat, seq<nat>>, owner: map<nat, nat>, h: nat, i: nat)
    requires WellLinked(ptr, lists, owner) && IsHead(h) && i < |lists[h]|
    ensures lists[h][i] in ptr
    ensures WellLinked(UnlinkPtr(ptr, lists, h, i), lists[h := Without(lists[h], i)],
                       owner - {lists[h][i]})
  {
    var s := lists[h];
    var x, p := s[i], Pred(h, s, i);
    var lists' := lists[h := Without(s, i)];
    var owner' := owner - {x};
    assert Linked(ptr, h, s) && Owns(owner, h, s);
    Reachable(ptr, lists, owner, h, i);
    HeadUnlisted(ptr, lists, owner, h, h);
    var ptr' := UnlinkPtr(ptr, lists, h, i);
    UnlinkOne(ptr, owner, h, s, i);
    forall g | IsHead(g) && g != h
      ensures Linked(ptr', g, lists[g]) && Owns(owner', g, lists[g])
    {
      assert Linked(ptr, g, lists[g]) && Owns(owner, g, lists[g]);
      Elsewhere(ptr, lists, owner, h, g, x);
      assert p !in lists[g] by {
        if i > 0 {
          Elsewhere(ptr, lists, owner, h, g, s[i - 1]);
        } else {
          HeadUnlisted(ptr, lists, owner, g, h);
        }
      }
      OtherList(ptr, owner, g, lists[g], p, ptr[x], x);
    }
    forall y | y in owner'
      ensures y in lists'[owner'[y]]
    {
      StillListed(s, i, y);
    }
  }

  lemma StillListed(s: seq<nat>, i: nat, y: nat)
    requires i < |s| && y != s[i]
    ensures y in s ==> y in Without(s, i)
  {
    if y in s {
      var j :| 0 <= j < |s| && s[j] == y;
      assert y == Without(s, i)[if j < i then j else j - 1];
    }
  }

  // ----- putting a record at the front of a list -----

  ghost function PushPtr(ptr: map<nat, nat>, h: nat, x: nat): map<nat, nat>
    requires h in ptr
  {
    ptr[x := ptr[h]][h := x]
  }

  lemma PushOne(ptr: map<nat, nat>, owner: map<nat, nat>, h: nat, s: seq<nat>, x: nat)
    requires Linked(ptr, h, s) && Owns(owner, h, s)
    requires x !in owner && x != h && h !in s && h in ptr
    ensures Linked(PushPtr(ptr, h, x), h, [x] + s)
    ensures Owns(owner[x := h], h, [x] + s)
  {
    var ptr', t := PushPtr(ptr, h, x), [x] + s;
    assert Pred(h, s, 0) == h;
    forall j | 0 <= j <= |t|
      ensures Pred(h, t, j) in ptr' && ptr'[Pred(h, t, j)] == Nth(t, j)
    {
      if j > 0 {
        assert Nth(t, j) == Nth(s, j - 1);
        assert j > 1 ==> Pred(h, t, j) == Pred(h, s, j - 1);
      }
    }
  }

  lemma PushOther(ptr: map<nat, nat>, owner: map<nat, nat>, g: nat, s: seq<nat>, h: nat, x: nat)
    requires Linked(ptr, g, s) && Owns(owner, g, s) && h in ptr
    requires x !in owner && x != g && h != g && h !in s
    ensures Linked(PushPtr(ptr, h, x), g, s)
    ensures Owns(owner[x := h], g, s)
  {
  }

  lemma Push(ptr: map<nat, nat>, lists: map<nat, seq<nat>>, owner: map<nat, nat>, h: nat, x: nat)
    requires WellLinked(ptr, lists, owner) && IsHead(h) && !IsHead(x) && x !in owner
    ensures h in ptr
    ensures WellLinked(PushPtr(ptr, h, x), lists[h := [x] + lists[h]], owner[x := h])
  {
    HeadIsCell(ptr, lists, owner, h);
    var lists', owner' := lists[h := [x] + lists[h]], owner[x := h];
    forall g | IsHead(g)
      ensures Linked(PushPtr(ptr, h, x), g, lists'[g]) && Owns(owner', g, lists'[g])
    {
      assert Linked(ptr, g, lists[g]) && Owns(owner, g, lists[g]);
      HeadUnlisted(ptr, lists, owner, g, h);
      if g == h {
        PushOne(ptr, owner, h, lists[h], x);
      } else {
        PushOther(ptr, owner, g, lists[g], h, x);
      }
    }
    forall y | y in owner'
      ensures y in lists'[owner'[y]]
    {
      if y == x {
        assert ([x] + lists[h])[0] == x;
      } else if owner[y] == h {
        assert y in lists[h];
      }
    }
  }

  // ----- moving a record from one list to the front of another -----

  ghost function MovePtr(ptr: map<nat, nat>, lists: map<nat, seq<nat>>, h: nat, i: nat, to: nat): map<nat, nat>
    requires h in lists && i < |lists[h]| && lists[h][i] in ptr && to in ptr
  {
    ptr[Pred(h, lists[h], i) := ptr[lists[h][i]]][lists[h][i] := ptr[to]][to := lists[h][i]]
  }

  ghost function MoveLists(lists: map<nat, seq<nat>>, h: nat, i: nat, to: nat): map<nat, seq<nat>>
    requires h in lists && to in lists && i < |lists[h]|
  {
    lists[h := Without(lists[h], i)][to := [lists[h][i]] + lists[to]]
  }

  lemma Move(ptr: map<nat, nat>, lists: map<nat, seq<nat>>, owner: map<nat, nat>, h: nat, i: nat, to: nat)
    requires WellLinked(ptr, lists, owner) && IsHead(h) && IsHead(to) && to != h && i < |lists[h]|
    ensures lists[h][i] in ptr && to in ptr
    ensures WellLinked(MovePtr(ptr, lists, h, i, to), MoveLists(lists, h, i, to),
                       owner[lists[h][i] := to])
  {
    var x := lists[h][i];
    Unlink(ptr, lists, owner, h, i);
    Reachable(ptr, lists, owner, h, i);
    HeadIsCell(ptr, lists, owner, to);
    if i > 0 {
      Reachable(ptr, lists, owner, h, i - 1);
    }
    Push(UnlinkPtr(ptr, lists, h, i), lists[h := Without(lists[h], i)], owner - {x}, to, x);
    assert (owner - {x})[x := to] == owner[x := to];
  }
}
