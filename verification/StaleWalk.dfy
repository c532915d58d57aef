// The list walks as the code is written. _db_readidx returns db->ptrval without decoding the
// pointer field it has just read, so every step after the head of a list goes to the same
// place: the pointer this handle last wrote. This module says exactly when such a walk, and
// a delete or a reuse that follows it, still does what the list calls for, and that
// otherwise it is wrong or never ends.

module StaleWalk {
  import opened Wrappers
  import opened Bytes
  import opened IndexRecord
  import opened FileImage
  import opened Lists
  import opened Directory
  import opened Database

  // A record and the cell the walk has come from, db->ptroff or saveoffset.
  datatype Outcome = Running | Missing | Found(at: nat, from: nat)

  // What a walk looks for in a record: the key for a search, the two lengths for the free list.
  type Test = (Str, nat) -> bool

  // The loop of _db_find_and_lock, or of _db_findfree, for `steps` rounds, having come from
  // cell `from` to `offset`, with db->ptrval == stale.
  function Search(idx: Str, from: nat, offset: nat, stale: nat, wanted: Test, steps: nat): Outcome
    decreases steps
  {
    if offset == 0 then Missing
    else if steps == 0 then Running
    else
      match ParseIdx(idx, offset)
      case None => Running
      case Some(e) =>
        if wanted(e.key, e.datlen) then Found(offset, from)
        else Search(idx, offset, stale, stale, wanted, steps - 1)
  }

  function ForKey(key: Str): Test {
    (k, n) => k == key
  }

  function ForSize(klen: nat, dlen: nat): Test {
    (k: Str, n) => |k| == klen && n == dlen
  }

  // A value db->ptrval can have: the end mark or a record.
  ghost predicate Carried(b: Book, stale: nat) {
    stale == 0 || (stale in b.img.geo && stale in b.img.key)
  }

  ghost predicate Passes(b: Book, x: nat, wanted: Test) {
    x in b.img.key && x in b.img.geo && wanted(b.img.key[x], b.img.geo[x].dlen)
  }

  // Once at the stale offset the walk stays there.
  lemma {:induction false} StaysPut(idx: Str, dat: Str, b: Book, from: nat, stale: nat, wanted: Test, steps: nat)
    requires Rep(idx, dat, b.img) && Sound(b) && Carried(b, stale)
    ensures Search(idx, from, stale, stale, wanted, steps)
         == if stale == 0 then Missing
            else if steps > 0 && Passes(b, stale, wanted) then Found(stale, from)
            else Running
    decreases steps
  {
    hide Rep, Sound, ParseIdx;
    if stale != 0 {
      ReadRecord(idx, dat, b.img, stale);
      if steps > 0 {
        StaysPut(idx, dat, b, stale, stale, wanted, steps - 1);
      }
    }
  }

  // The outcome of a walk that looks at no more than the head of the list and the record
  // the stale pointer leads to.
  ghost function Looked(b: Book, h: nat, stale: nat, wanted: Test): Outcome
    requires h in b.lists
  {
    var s := b.lists[h];
    if s == [] then Missing
    else if Passes(b, s[0], wanted) then Found(s[0], h)
    else if stale == 0 then Missing
    else if Passes(b, stale, wanted) then Found(stale, s[0])
    else Running
  }

  // Every walk is like that.
  lemma WholeSearch(idx: Str, dat: Str, b: Book, h: nat, stale: nat, wanted: Test, steps: nat)
    requires Rep(idx, dat, b.img) && Sound(b) && IsHead(h) && Carried(b, stale) && steps >= 2
    ensures h in b.lists && h in b.img.ptr
    ensures Search(idx, h, b.img.ptr[h], stale, wanted, steps) == Looked(b, h, stale, wanted)
  {
    hide Rep, Sound, ParseIdx, IsHead;
    ListStart(idx, dat, b, h);
    if b.lists[h] != [] {
      ListStep(idx, dat, b, h, 0);
      StaysPut(idx, dat, b, b.lists[h][0], stale, wanted, steps - 1);
    }
  }

  // It never ends exactly when neither record it ever looks at passes the test.
  lemma NeverEndsExactlyWhen(idx: Str, dat: Str, b: Book, h: nat, stale: nat, wanted: Test)
    requires Rep(idx, dat, b.img) && Sound(b) && IsHead(h) && Carried(b, stale)
    ensures h in b.lists && h in b.img.ptr
    ensures var s := b.lists[h];
      ((forall steps: nat :: Search(idx, h, b.img.ptr[h], stale, wanted, steps) == Running)
        <==> s != [] && !Passes(b, s[0], wanted) && stale != 0 && !Passes(b, stale, wanted))
  {
    hide Rep, Sound, ParseIdx, IsHead, Passes;
    WholeSearch(idx, dat, b, h, stale, wanted, 2);
    var s := b.lists[h];
    ListStart(idx, dat, b, h);
    if s != [] {
      ListStep(idx, dat, b, h, 0);
      forall steps: nat | !Passes(b, s[0], wanted) && stale != 0 && !Passes(b, stale, wanted)
        ensures Search(idx, h, b.img.ptr[h], stale, wanted, steps) == Running
      {
        if steps >= 2 {
          WholeSearch(idx, dat, b, h, stale, wanted, steps);
        } else if steps == 1 {
          OneStep(idx, dat, b, h, stale, wanted);
        }
      }
    }
  }

  lemma OneStep(idx: Str, dat: Str, b: Book, h: nat, stale: nat, wanted: Test)
    requires Rep(idx, dat, b.img) && Sound(b) && IsHead(h) && Carried(b, stale) && stale != 0
    requires h in b.lists && h in b.img.ptr && b.lists[h] != [] && !Passes(b, b.lists[h][0], wanted)
    ensures Search(idx, h, b.img.ptr[h], stale, wanted, 1) == Running
  {
    hide Rep, Sound, ParseIdx, IsHead;
    ListStart(idx, dat, b, h);
    ListStep(idx, dat, b, h, 0);
    StaysPut(idx, dat, b, b.lists[h][0], stale, wanted, 0);
  }

  // ----- what a walk should find -----

  // The first record from position j on that passes the test, or the end of the list.
  ghost function First(b: Book, h: nat, wanted: Test, j: nat): (i: nat)
    requires h in b.lists && j <= |b.lists[h]|
    ensures j <= i <= |b.lists[h]|
    ensures i < |b.lists[h]| ==> Passes(b, b.lists[h][i], wanted)
    ensures forall k :: j <= k < i ==> !Passes(b, b.lists[h][k], wanted)
    decreases |b.lists[h]| - j
  {
    if j == |b.lists[h]| || Passes(b, b.lists[h][j], wanted) then j
    else First(b, h, wanted, j + 1)
  }

  // A walk is right if it stops at the first record wanted, or at the end if there is none.
  ghost predicate Right(b: Book, h: nat, wanted: Test, o: Outcome)
    requires h in b.lists
  {
    var i := First(b, h, wanted, 0);
    match o
    case Running => false
    case Missing => i == |b.lists[h]|
    case Found(x, _) => i < |b.lists[h]| && x == b.lists[h][i]
  }

  // For a search that means: at the record of the key, or not found for a missing key.
  lemma RightForKey(idx: Str, dat: Str, b: Book, key: Str, o: Outcome)
    requires Rep(idx, dat, b.img) && Sound(b)
    ensures HashCell(key) in b.lists
    ensures Right(b, HashCell(key), ForKey(key), o)
      <==> match o
           case Running => false
           case Missing => key !in b.at
           case Found(x, _) => key in b.at && x == b.at[key]
  {
    hide Rep, Sound, HashCell;
    var h := HashCell(key);
    ListStart(idx, dat, b, h);
    var i := First(b, h, ForKey(key), 0);
    if i < |b.lists[h]| {
      OnChain(b, h, i);
    } else if key in b.at {
      var n := Position(b, key);
      ListStep(idx, dat, b, h, n);
      KeyOfLive(b, key);
      assert Passes(b, b.lists[h][n], ForKey(key));
    }
  }

  // A walk, for a key or for a free record, is right exactly when the list is empty, its
  // head is wanted, or the stale pointer happens to lead to the first record wanted, or to
  // the end if there is none.
  lemma RightExactlyWhen(b: Book, h: nat, stale: nat, wanted: Test)
    requires Sound(b) && IsHead(h) && h in b.lists && Carried(b, stale)
    ensures var s := b.lists[h];
      Right(b, h, wanted, Looked(b, h, stale, wanted)) <==>
      (s == [] || Passes(b, s[0], wanted) || stale == Nth(s, First(b, h, wanted, 0)))
  {
    hide Sound, Passes, IsHead;
    ListEnd(b, h, First(b, h, wanted, 0));
  }

  // So it is for the walk itself, from its second round on.
  lemma SearchRightExactlyWhen(idx: Str, dat: Str, b: Book, h: nat, stale: nat, wanted: Test, steps: nat)
    requires Rep(idx, dat, b.img) && Sound(b) && IsHead(h) && Carried(b, stale) && steps >= 2
    ensures h in b.lists && h in b.img.ptr
    ensures var s := b.lists[h];
      Right(b, h, wanted, Search(idx, h, b.img.ptr[h], stale, wanted, steps)) <==>
      (s == [] || Passes(b, s[0], wanted) || stale == Nth(s, First(b, h, wanted, 0)))
  {
    hide Rep, Sound, IsHead, Search, Looked, Right, Passes;
    WholeSearch(idx, dat, b, h, stale, wanted, steps);
    RightExactlyWhen(b, h, stale, wanted);
  }

  // For a search, and so for a fetch: the key heads its chain or the stale pointer leads to
  // it, or it is missing and its chain is empty or the pointer is 0.
  lemma FetchesRightExactlyWhen(idx: Str, dat: Str, b: Book, key: Str, stale: nat, steps: nat)
    requires Rep(idx, dat, b.img) && Sound(b) && Carried(b, stale) && steps >= 2
    ensures HashCell(key) in b.lists && HashCell(key) in b.img.ptr
    ensures var h := HashCell(key);
      Right(b, h, ForKey(key), Search(idx, h, b.img.ptr[h], stale, ForKey(key), steps))
      <==> FindsKey(b, key, stale)
  {
    hide Rep, Sound, HashCell, Search, Right, First;
    var h := HashCell(key);
    WholeSearch(idx, dat, b, h, stale, ForKey(key), steps);
    var s := b.lists[h];
    RightForKey(idx, dat, b, key, Looked(b, h, stale, ForKey(key)));
    if s != [] {
      OnChain(b, h, 0);
      ListStep(idx, dat, b, h, 0);
    }
    if key in b.at {
      KeyOfLive(b, key);
      LiveRecord(b, key);
      LiveNotZero(idx, dat, b, key);
    }
  }

  ghost predicate FindsKey(b: Book, key: Str, stale: nat)
    requires HashCell(key) in b.lists
  {
    var s := b.lists[HashCell(key)];
    if key in b.at then (s != [] && s[0] == b.at[key]) || stale == b.at[key]
    else s == [] || stale == 0
  }

  lemma LiveNotZero(idx: Str, dat: Str, b: Book, key: Str)
    requires Rep(idx, dat, b.img) && Sound(b) && key in b.at
    ensures HashCell(key) in b.lists && b.lists[HashCell(key)] != [] && b.at[key] != 0
  {
    hide Rep, Sound, HashCell;
    var n := Position(b, key);
    ListStep(idx, dat, b, HashCell(key), n);
  }

  // ----- taking out what was found -----

  // Both _db_findfree and _db_dodelete then write db->ptrval, the stale pointer, into the
  // cell the walk came from. What should be left is the list without the record.
  ghost predicate TakesOut(b: Book, h: nat, wanted: Test, stale: nat, o: Outcome)
    requires h in b.lists
  {
    && Right(b, h, wanted, o)
    && (o.Found? ==>
      Linked(b.img.ptr[o.from := stale], h, Without(b.lists[h], First(b, h, wanted, 0))))
  }

  // That happens exactly when the record wanted heads its list and the stale pointer is the
  // second record, or when nothing is wanted and the walk is right.
  lemma TakesOutExactlyWhen(b: Book, h: nat, stale: nat, wanted: Test)
    requires Sound(b) && IsHead(h) && h in b.lists && Carried(b, stale)
    ensures var s := b.lists[h];
      TakesOut(b, h, wanted, stale, Looked(b, h, stale, wanted)) <==>
      (if First(b, h, wanted, 0) < |s| then Passes(b, s[0], wanted) && stale == Nth(s, 1)
       else s == [] || stale == 0)
  {
    hide Sound, Passes, IsHead, Linked;
    var s, o, i := b.lists[h], Looked(b, h, stale, wanted), First(b, h, wanted, 0);
    RightExactlyWhen(b, h, stale, wanted);
    ListEnd(b, h, i);
    if i < |s| && Right(b, h, wanted, o) {
      if i == 0 {
        HeadRelinked(b, h, stale);
      } else {
        SecondRelinked(b, h, i);
      }
    }
  }

  lemma SearchTakesOutExactlyWhen(idx: Str, dat: Str, b: Book, h: nat, stale: nat, wanted: Test, steps: nat)
    requires Rep(idx, dat, b.img) && Sound(b) && IsHead(h) && Carried(b, stale) && steps >= 2
    ensures h in b.lists && h in b.img.ptr
    ensures var s := b.lists[h];
      TakesOut(b, h, wanted, stale, Search(idx, h, b.img.ptr[h], stale, wanted, steps)) <==>
      (if First(b, h, wanted, 0) < |s| then Passes(b, s[0], wanted) && stale == Nth(s, 1)
       else s == [] || stale == 0)
  {
    hide Rep, Sound, IsHead, Search, Looked, TakesOut, Passes;
    WholeSearch(idx, dat, b, h, stale, wanted, steps);
    TakesOutExactlyWhen(b, h, stale, wanted);
  }

  lemma HeadRelinked(b: Book, h: nat, stale: nat)
    requires Sound(b) && IsHead(h) && h in b.lists && b.lists[h] != []
    ensures Linked(b.img.ptr[h := stale], h, Without(b.lists[h], 0)) <==> stale == Nth(b.lists[h], 1)
  {
    var s := b.lists[h];
    var t := Without(s, 0);
    assert Linked(b.img.ptr, h, s) && Owns(b.owner, h, s);
    assert Pred(h, s, 1) == s[0] && Pred(h, s, 0) == h;
    HeadUnlisted(b.img.ptr, b.lists, b.owner, h, h);
    if stale == Nth(s, 1) {
      UnlinkOne(b.img.ptr, b.owner, h, s, 0);
    } else {
      assert Pred(h, t, 0) == h && Nth(t, 0) == Nth(s, 1);
    }
  }

  // A record found by the stale pointer is linked behind the head of the list, not out of it.
  lemma SecondRelinked(b: Book, h: nat, i: nat)
    requires Sound(b) && IsHead(h) && h in b.lists && 0 < i < |b.lists[h]|
    ensures !Linked(b.img.ptr[b.lists[h][0] := b.lists[h][i]], h, Without(b.lists[h], i))
  {
    var s := b.lists[h];
    var t := Without(s, i);
    assert Linked(b.img.ptr, h, s) && Owns(b.owner, h, s);
    Reachable(b.img.ptr, b.lists, b.owner, h, i);
    ListEnd(b, h, i);
    assert Pred(h, t, 1) == s[0];
    assert Nth(t, 1) != s[i];
  }

  // ----- a whole delete -----

  // The pointers after _db_dodelete as written: the record to the front of the free list,
  // the stale pointer into the cell the search came from.
  ghost function PtrAfterDelete(ptr: map<nat, nat>, x: nat, from: nat, stale: nat): map<nat, nat>
    requires FREE_OFF in ptr
  {
    ptr[x := ptr[FREE_OFF]][FREE_OFF := x][from := stale]
  }

  // A delete is right if a missing key is reported as missing, and otherwise the pointers
  // are those of the database without the key.
  ghost predicate DeletesRight(b: Book, key: Str, stale: nat, o: Outcome) {
    match o
    case Running => false
    case Missing => key !in b.at
    case Found(x, from) => key in b.at && x == b.at[key] && Relinks(b, key, from, stale)
  }

  ghost predicate Relinks(b: Book, key: Str, from: nat, stale: nat)
    requires key in b.at
  {
    && FREE_OFF in b.img.ptr
    && exists i ::
      Standing(b, key, i) && PtrAfterDelete(b.img.ptr, b.at[key], from, stale) == Deleted(b, key, i).img.ptr
  }

  // As written it is right exactly when the key heads its chain and the stale pointer is the
  // second record of it, or the key is missing and its chain is empty or the pointer is 0.
  lemma DeletesRightExactlyWhen(idx: Str, dat: Str, b: Book, key: Str, stale: nat)
    requires Rep(idx, dat, b.img) && Sound(b) && Carried(b, stale)
    ensures HashCell(key) in b.lists
    ensures var s := b.lists[HashCell(key)];
      DeletesRight(b, key, stale, Looked(b, HashCell(key), stale, ForKey(key))) <==>
      (if key in b.at then s != [] && s[0] == b.at[key] && stale == Nth(s, 1)
       else s == [] || stale == 0)
  {
    hide Rep, Sound, HashCell, Relinks;
    var h := HashCell(key);
    ListStart(idx, dat, b, h);
    var s := b.lists[h];
    if s != [] {
      OnChain(b, h, 0);
      ListStep(idx, dat, b, h, 0);
    }
    if key in b.at {
      KeyOfLive(b, key);
      LiveRecord(b, key);
      if s != [] && s[0] == b.at[key] {
        HeadDeleted(idx, dat, b, key, stale);
      } else {
        OtherDeleted(idx, dat, b, key);
      }
    }
  }

  lemma SearchDeletesRightExactlyWhen(idx: Str, dat: Str, b: Book, key: Str, stale: nat, steps: nat)
    requires Rep(idx, dat, b.img) && Sound(b) && Carried(b, stale) && steps >= 2
    ensures HashCell(key) in b.lists && HashCell(key) in b.img.ptr
    ensures var h, s := HashCell(key), b.lists[HashCell(key)];
      DeletesRight(b, key, stale, Search(idx, h, b.img.ptr[h], stale, ForKey(key), steps)) <==>
      (if key in b.at then s != [] && s[0] == b.at[key] && stale == Nth(s, 1)
       else s == [] || stale == 0)
  {
    hide Rep, Sound, HashCell, Search, Looked, DeletesRight, Passes, ForKey;
    WholeSearch(idx, dat, b, HashCell(key), stale, ForKey(key), steps);
    DeletesRightExactlyWhen(idx, dat, b, key, stale);
  }

  lemma HeadDeleted(idx: Str, dat: Str, b: Book, key: Str, stale: nat)
    requires Rep(idx, dat, b.img) && Sound(b) && key in b.at
    requires HashCell(key) in b.lists && b.lists[HashCell(key)] != [] && b.lists[HashCell(key)][0] == b.at[key]
    ensures Relinks(b, key, HashCell(key), stale) <==> stale == Nth(b.lists[HashCell(key)], 1)
  {
    hide Rep, Sound, HashCell, HashSum, Deleted, PtrAfterDelete, Standing;
    var h, x := HashCell(key), b.at[key];
    KeyOfLive(b, key);
    ListStep(idx, dat, b, h, 0);
    OnChainStanding(idx, dat, b, key, 0);
    FreeHead(b);
    HeadPointers(b, key, stale);
    forall i | Standing(b, key, i)
      ensures i == 0
    {
      SamePlace(b, key, i, 0);
    }
  }

  lemma HeadPointers(b: Book, key: Str, stale: nat)
    requires Sound(b) && Standing(b, key, 0)
    requires b.img.ptr[b.at[key]] == Nth(b.lists[HashCell(key)], 1)
    ensures PtrAfterDelete(b.img.ptr, b.at[key], HashCell(key), stale) == Deleted(b, key, 0).img.ptr
      <==> stale == Nth(b.lists[HashCell(key)], 1)
  {
    hide Sound, HashSum;
    var h, x := HashCell(key), b.at[key];
    NotAHead(b, h, 0);
    assert h != FREE_OFF && h != x && x != FREE_OFF;
    assert PtrAfterDelete(b.img.ptr, x, h, stale)[h] == stale;
    assert Deleted(b, key, 0).img.ptr[h] == b.img.ptr[x];
    if stale == b.img.ptr[x] {
      assert PtrAfterDelete(b.img.ptr, x, h, stale) == Deleted(b, key, 0).img.ptr;
    }
  }

  lemma SamePlace(b: Book, key: Str, i: nat, j: nat)
    requires Sound(b) && Standing(b, key, i) && Standing(b, key, j)
    ensures i == j
  {
    hide HashCell, Filed, Addressed;
    OnePlace(b, HashCell(key), b.at[key]);
  }

  lemma NotAHead(b: Book, h: nat, i: nat)
    requires Sound(b) && IsHead(h) && h in b.lists && i < |b.lists[h]|
    ensures !IsHead(b.lists[h][i])
  {
    Reachable(b.img.ptr, b.lists, b.owner, h, i);
  }

  lemma OnePlace(b: Book, h: nat, x: nat)
    requires Sound(b) && IsHead(h) && h in b.lists
    ensures forall i, j :: 0 <= i < j < |b.lists[h]| ==> b.lists[h][i] != b.lists[h][j]
  {
    assert Owns(b.owner, h, b.lists[h]);
  }

  // A key further down, found by the stale pointer: the head of the chain is made to point
  // at the deleted record.
  lemma OtherDeleted(idx: Str, dat: Str, b: Book, key: Str)
    requires Rep(idx, dat, b.img) && Sound(b) && key in b.at
    requires HashCell(key) in b.lists
    requires b.lists[HashCell(key)] != [] ==> b.lists[HashCell(key)][0] != b.at[key]
    ensures b.lists[HashCell(key)] != [] && !Relinks(b, key, b.lists[HashCell(key)][0], b.at[key])
  {
    hide Rep, Sound, HashCell, HashSum, Deleted, PtrAfterDelete, Standing;
    var h, x := HashCell(key), b.at[key];
    FreeHead(b);
    var n := Position(b, key);
    ListStep(idx, dat, b, h, n);
    ListStep(idx, dat, b, h, 0);
    KeyOfLive(b, key);
    OnChainStanding(idx, dat, b, key, n);
    OtherPointers(b, key, n);
    forall i | Standing(b, key, i)
      ensures i == n
    {
      SamePlace(b, key, i, n);
    }
  }

  lemma OtherPointers(b: Book, key: Str, n: nat)
    requires Sound(b) && Standing(b, key, n) && n > 0
    requires var s := b.lists[HashCell(key)];
      s[0] in b.img.ptr && b.img.ptr[s[0]] == Nth(s, 1) && b.img.ptr[b.at[key]] == Nth(s, n + 1)
    ensures PtrAfterDelete(b.img.ptr, b.at[key], b.lists[HashCell(key)][0], b.at[key])
         != Deleted(b, key, n).img.ptr
  {
    hide Sound, HashSum;
    var h, x := HashCell(key), b.at[key];
    var s := b.lists[h];
    OnePlace(b, h, x);
    NotAHead(b, h, 0);
    NotAHead(b, h, n);
    assert PtrAfterDelete(b.img.ptr, x, s[0], x)[s[0]] == x;
    assert Deleted(b, key, n).img.ptr[s[0]] == if n == 1 then Nth(s, n + 1) else Nth(s, 1);
  }

  // ----- a whole store -----

  // A store is right if, on the path it should take, its search is, and its search of the
  // free list, and what it relinks. Here o and f are the outcomes of the two walks.
  ghost predicate StoresRight(b: Book, key: Str, data: Str, flag: int, stale: nat, o: Outcome, f: Outcome)
    requires Sound(b) && HashCell(key) in b.lists && FREE_OFF in b.lists
  {
    BadArguments(data, flag) ||
    match PathOf(b, key, data, flag)
    case Refuse => Right(b, HashCell(key), ForKey(key), o)
    case Overwrite => Right(b, HashCell(key), ForKey(key), o)
    case Relocate => DeletesRight(b, key, stale, o)
    case Append =>
      && Right(b, HashCell(key), ForKey(key), o)
      && Right(b, FREE_OFF, ForSize(|key|, |data| + 1), f)
    case Reuse =>
      && Right(b, HashCell(key), ForKey(key), o)
      && TakesOut(b, FREE_OFF, ForSize(|key|, |data| + 1), stale, f)
  }

  // On each path that comes down to a condition on the two lists and the stale pointer.
  lemma StoresRightExactlyWhen(idx: Str, dat: Str, b: Book, key: Str, data: Str, flag: int,
                               stale: nat, steps: nat)
    requires Rep(idx, dat, b.img) && Sound(b) && Carried(b, stale) && steps >= 2
    ensures HashCell(key) in b.lists && HashCell(key) in b.img.ptr
    ensures FREE_OFF in b.lists && FREE_OFF in b.img.ptr
    ensures var h, s, free := HashCell(key), b.lists[HashCell(key)], b.lists[FREE_OFF];
      var o := Search(idx, h, b.img.ptr[h], stale, ForKey(key), steps);
      var f := Search(idx, FREE_OFF, b.img.ptr[FREE_OFF], stale, ForSize(|key|, |data| + 1), steps);
      StoresRight(b, key, data, flag, stale, o, f) <==>
      (BadArguments(data, flag) ||
        match PathOf(b, key, data, flag)
        case Refuse => FindsKey(b, key, stale)
        case Overwrite => FindsKey(b, key, stale)
        case Relocate => s != [] && s[0] == b.at[key] && stale == Nth(s, 1)
        case Append => (s == [] || stale == 0) && (free == [] || stale == 0)
        case Reuse => (s == [] || stale == 0) && FreeFit(b, 0, |key|, |data| + 1) && stale == Nth(free, 1))
  {
    hide Rep, Sound, HashCell, Search, Right, TakesOut, DeletesRight, Passes, ForKey, ForSize, HasFree, FreeFit;
    hide Contents, BadArguments;
    FetchesRightExactlyWhen(idx, dat, b, key, stale, steps);
    SearchDeletesRightExactlyWhen(idx, dat, b, key, stale, steps);
    FreeHead(b);
    SearchRightExactlyWhen(idx, dat, b, FREE_OFF, stale, ForSize(|key|, |data| + 1), steps);
    SearchTakesOutExactlyWhen(idx, dat, b, FREE_OFF, stale, ForSize(|key|, |data| + 1), steps);
    FirstFit(idx, dat, b, |key|, |data| + 1);
    KeysOf(b);
  }

  // The record a reuse takes is the first on the free list that passes the test.
  lemma FirstFit(idx: Str, dat: Str, b: Book, klen: nat, dlen: nat)
    requires Rep(idx, dat, b.img) && Sound(b) && FREE_OFF in b.lists
    ensures var free := b.lists[FREE_OFF];
      && (HasFree(b, klen, dlen) <==> First(b, FREE_OFF, ForSize(klen, dlen), 0) < |free|)
      && (free != [] ==> (Passes(b, free[0], ForSize(klen, dlen)) <==> FreeFit(b, 0, klen, dlen)))
      && Nth(free, |free|) == 0
  {
    hide Rep, Sound, First;
    var free := b.lists[FREE_OFF];
    forall j | 0 <= j < |free|
      ensures Passes(b, free[j], ForSize(klen, dlen)) <==> FreeFit(b, j, klen, dlen)
    {
      ListStep(idx, dat, b, FREE_OFF, j);
      KeyLength(idx, dat, b, free[j]);
    }
    var i := First(b, FREE_OFF, ForSize(klen, dlen), 0);
    if i < |free| {
      assert FreeFit(b, i, klen, dlen);
    }
  }

  // ----- an input on which it fails -----

  ghost predicate FindsNothing(idx: Str, from: nat, offset: nat, stale: nat, wanted: Test) {
    forall steps: nat :: steps >= 2 ==> Search(idx, from, offset, stale, wanted, steps) == Missing
  }

  // A store of a new key as written: neither the search nor the free list yields a record,
  // so one is appended, and db->ptrval becomes the pointer that is printed into it.
  ghost predicate StoresAsWritten(idx: Str, dat: Str, b: Book, stale: nat, k: Str, d: Str,
                                  idx': Str, dat': Str, b': Book, stale': nat)
  {
    var h, s := HashCell(k), NewSlot(|k|, |dat|, |d| + 1);
    && h in b.img.ptr && h in b.lists && FREE_OFF in b.img.ptr
    && FindsNothing(idx, h, b.img.ptr[h], stale, ForKey(k))
    && FindsNothing(idx, FREE_OFF, b.img.ptr[FREE_OFF], stale, ForSize(|k|, |d| + 1))
    && dat' == WriteAt(dat, |dat|, d + [NEWLINE])
    && var idx1 := WriteAt(idx, |idx|, Encode(b.img.ptr[h], k, s));
    && h <= |idx1| && idx' == WriteAt(idx1, h, Pad(|idx|, PTR_SZ))
    && b' == Appended(b, |idx|, s, k, d)
    && stale' == b.img.ptr[h]
  }

  // Such a store, with both lists walked to their ends by the stale pointer 0.
  lemma StoresFresh(idx: Str, dat: Str, b: Book, k: Str, d: Str)
    returns (idx': Str, dat': Str, b': Book, stale': nat)
    requires Rep(idx, dat, b.img) && Sound(b) && ProperKey(k) && k !in b.at
    requires NUL !in d && Proper(NewSlot(|k|, |dat|, |d| + 1)) && |idx| <= PTR_MAX
    requires FREE_OFF in b.lists && b.lists[FREE_OFF] == []
    ensures HashCell(k) in b.lists
    ensures StoresAsWritten(idx, dat, b, 0, k, d, idx', dat', b', stale')
    ensures Rep(idx', dat', b'.img) && Sound(b') && Contents(b') == Contents(b)[k := d]
    ensures |idx'| == |idx| + Size(NewSlot(|k|, |dat|, |d| + 1)) && |dat'| == |dat| + |d| + 1
    ensures FREE_OFF in b'.lists && b'.lists[FREE_OFF] == []
    ensures HashCell(k) in b'.lists && b'.lists[HashCell(k)] == [|idx|] + b.lists[HashCell(k)]
    ensures b'.img.key == b.img.key[|idx| := k] && |idx| in b'.img.geo
    ensures forall x :: x in b.img.geo ==> x in b'.img.geo
    ensures stale' == Nth(b.lists[HashCell(k)], 0)
  {
    hide Rep, Sound, HashCell, ParseIdx, Encode, Pad, Appended, Search, Contents, Proper, WriteAt, ForSize, ForKey;
    var h: nat := HashCell(k);
    var s := NewSlot(|k|, |dat|, |d| + 1);
    AppendWrites(idx, dat, b, k, d);
    AppendedAll(b, |idx|, s, k, d);
    FirstAt(b, |idx|, s, k, d);
    ListStart(idx, dat, b, h);
    ListStart(idx, dat, b, FREE_OFF);
    NoneOfKey(idx, dat, b, k);
    NothingFound(idx, dat, b, h, 0, ForKey(k));
    NothingFound(idx, dat, b, FREE_OFF, 0, ForSize(|k|, |d| + 1));
    var idx1 := WriteAt(idx, |idx|, Encode(b.img.ptr[h], k, s));
    idx', dat' := WriteAt(idx1, h, Pad(|idx|, PTR_SZ)), WriteAt(dat, |dat|, d + [NEWLINE]);
    b', stale' := Appended(b, |idx|, s, k, d), b.img.ptr[h];
  }

  lemma NothingFound(idx: Str, dat: Str, b: Book, h: nat, stale: nat, wanted: Test)
    requires Rep(idx, dat, b.img) && Sound(b) && IsHead(h) && h in b.lists && Carried(b, stale)
    requires Looked(b, h, stale, wanted) == Missing
    ensures h in b.img.ptr && FindsNothing(idx, h, b.img.ptr[h], stale, wanted)
  {
    hide Rep, Sound, IsHead, Search, Looked;
    WholeSearch(idx, dat, b, h, stale, wanted, 2);
    forall steps: nat | steps >= 2
      ensures Search(idx, h, b.img.ptr[h], stale, wanted, steps) == Missing
    {
      WholeSearch(idx, dat, b, h, stale, wanted, steps);
    }
  }

  lemma NoneOfKey(idx: Str, dat: Str, b: Book, k: Str)
    requires Rep(idx, dat, b.img) && Sound(b) && k !in b.at
    ensures HashCell(k) in b.lists
    ensures b.lists[HashCell(k)] != [] ==> !Passes(b, b.lists[HashCell(k)][0], ForKey(k))
  {
    hide Rep, Sound, HashCell;
    ListStart(idx, dat, b, HashCell(k));
    if b.lists[HashCell(k)] != [] {
      OnChain(b, HashCell(k), 0);
    }
  }

  // A new record heads its chain and holds its key; the free list is as it was.
  lemma FirstAt(b: Book, x: nat, s: Slot, k: Str, d: Str)
    requires HashCell(k) in b.img.ptr && HashCell(k) in b.lists && x <= PTR_MAX && FREE_OFF in b.lists
    ensures var b' := Appended(b, x, s, k, d);
      && HashCell(k) in b'.lists && b'.lists[HashCell(k)] == [x] + b.lists[HashCell(k)]
      && FREE_OFF in b'.lists && b'.lists[FREE_OFF] == b.lists[FREE_OFF]
      && b'.img.key == b.img.key[x := k] && b'.img.geo == b.img.geo[x := s]
  {
    hide HashSum;
    assert HashCell(k) != FREE_OFF;
  }

  // On a new handle, db->ptrval being 0, two keys of one chain are stored as the code is
  // written. The search for a third key of that chain then never ends.
  lemma AfterTwoStores(idx: Str, k1: Str, d1: Str, k2: Str, d2: Str, k3: Str)
    returns (idx1: Str, dat1: Str, b1: Book, stale1: nat, idx2: Str, dat2: Str, b2: Book, stale2: nat)
    requires Rep(idx, [], EmptyBook().img) && |idx| == HEADER
    requires ProperKey(k1) && NUL !in d1 && Proper(NewSlot(|k1|, 0, |d1| + 1))
    requires ProperKey(k2) && NUL !in d2 && Proper(NewSlot(|k2|, |d1| + 1, |d2| + 1))
    requires HashCell(k1) == HashCell(k2) == HashCell(k3)
    requires k1 != k2 && k2 != k3 && k1 != k3
    ensures StoresAsWritten(idx, [], EmptyBook(), 0, k1, d1, idx1, dat1, b1, stale1)
    ensures StoresAsWritten(idx1, dat1, b1, stale1, k2, d2, idx2, dat2, b2, stale2)
    ensures Rep(idx2, dat2, b2.img) && Sound(b2) && Contents(b2) == map[k1 := d1, k2 := d2]
    ensures HashCell(k3) in b2.img.ptr
    ensures forall steps: nat ::
      Search(idx2, HashCell(k3), b2.img.ptr[HashCell(k3)], stale2, ForKey(k3), steps) == Running
  {
    hide Rep, Sound, HashCell, ParseIdx, Search, Contents, ProperKey, StoresAsWritten, ForKey, NewSlot;
    EmptySound();
    var b0 := EmptyBook();
    KeysOf(b0);
    idx1, dat1, b1, stale1 := StoresFresh(idx, [], b0, k1, d1);
    KeysOf(b1);
    idx2, dat2, b2, stale2 := StoresFresh(idx1, dat1, b1, k2, d2);
    assert stale1 == 0 && stale2 == HEADER;
    ThirdKey(b2, HEADER, |idx1|, k1, k2, k3);
    NeverEndsExactlyWhen(idx2, dat2, b2, HashCell(k3), stale2, ForKey(k3));
  }

  lemma ThirdKey(b: Book, x1: nat, x2: nat, k1: Str, k2: Str, k3: Str)
    requires x1 in b.img.key && x2 in b.img.key && b.img.key[x1] == k1 && b.img.key[x2] == k2
    requires k3 != k1 && k3 != k2
    ensures !Passes(b, x1, ForKey(k3)) && !Passes(b, x2, ForKey(k3))
  {
  }

  // With concrete keys: "a" and "dC" are stored with data "x", and the search for "fB" in
  // the same chain never ends.
  lemma SomeSearchNeverEnds() returns (idx: Str, dat: Str, b: Book, stale: nat)
    ensures Rep(idx, dat, b.img) && Sound(b)
    ensures Contents(b) == map[[97] := [120], [100, 67] := [120]]
    ensures exists idx1: Str, dat1: Str, b1: Book, stale1: nat ::
      exists idx0: Str :: Rep(idx0, [], EmptyBook().img)
        && StoresAsWritten(idx0, [], EmptyBook(), 0, [97], [120], idx1, dat1, b1, stale1)
        && StoresAsWritten(idx1, dat1, b1, stale1, [100, 67], [120], idx, dat, b, stale)
    ensures HashCell([102, 66]) in b.img.ptr
    ensures forall steps: nat ::
      Search(idx, HashCell([102, 66]), b.img.ptr[HashCell([102, 66])], stale, ForKey([102, 66]), steps) == Running
  {
    hide Rep, Sound, Search, EmptyBook, HashCell, Contents, StoresAsWritten, ForKey;
    var k1, k2, k3: Str := [97], [100, 67], [102, 66];
    SameChain();
    SmallSlots();
    var idx0 := EmptyFile();
    var idx1, dat1, b1, stale1, idx2, dat2, b2, stale2 := AfterTwoStores(idx0, k1, [120], k2, [120], k3);
    idx, dat, b, stale := idx2, dat2, b2, stale2;
  }

  lemma SmallSlots()
    ensures Proper(NewSlot(1, 0, 2)) && Proper(NewSlot(2, 2, 2))
  {
    DecimalLength(0, 1);
    DecimalLength(2, 1);
  }

  lemma SameChain()
    ensures HashCell([97]) == HashCell([100, 67]) == HashCell([102, 66])
    ensures ProperKey([97]) && ProperKey([100, 67])
  {
    assert HashSum([]) == 0;
    assert [97][..0] == [] && [100, 67][..1] == [100] && [100][..0] == [];
    assert [102, 66][..1] == [102] && [102][..0] == [];
    assert HashSum([97]) == 97;
    assert HashSum([100]) == 100 && HashSum([102]) == 102;
    assert HashSum([100, 67]) == 234 && HashSum([102, 66]) == 234;
  }

  lemma EmptyFile() returns (idx: Str)
    ensures |idx| == HEADER && Rep(idx, [], EmptyBook().img)
  {
    PadWidths(0, 0);
    idx := seq(HEADER, i requires 0 <= i < HEADER =>
      if i == HEADER - 1 then NEWLINE else Pad(0, PTR_SZ)[i % PTR_SZ]);
    forall j | 0 <= j < NHASH + 1
      ensures idx[PTR_SZ * j..PTR_SZ * j + PTR_SZ] == Pad(0, PTR_SZ)
    {
      forall i | 0 <= i < PTR_SZ
        ensures idx[PTR_SZ * j + i] == Pad(0, PTR_SZ)[i]
      {
        assert (PTR_SZ * j + i) % PTR_SZ == i;
      }
    }
    EmptyRep(idx);
  }
}
