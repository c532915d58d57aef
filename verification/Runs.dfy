// Whole runs: any sequence of stores, deletes and fetches answers as a plain map does,
// a full scan lists exactly the map, and the bytes of the files alone determine it.

module Runs {
  import opened Wrappers
  import opened Bytes
  import opened IndexRecord
  import opened FileImage
  import opened Lists
  import opened Directory
  import opened Database

  // ----- any run is a run of a map -----

  datatype Op = StoreOp(key: Str, data: Str, flag: int) | DeleteOp(key: Str) | FetchOp(key: Str)
  datatype Reply = Code(rc: int) | Value(r: Option<Str>)

  function MapReply(m: map<Str, Str>, op: Op): Reply {
    match op
    case StoreOp(k, d, flag) => Code(StoreReply(m, k, d, flag))
    case DeleteOp(k) => Code(if k in m then 0 else -1)
    case FetchOp(k) => Value(if k in m then Some(m[k]) else None)
  }

  function MapNext(m: map<Str, Str>, op: Op): map<Str, Str> {
    match op
    case StoreOp(k, d, flag) => StoreMap(m, k, d, flag)
    case DeleteOp(k) => m - {k}
    case FetchOp(_) => m
  }

  function MapAfter(m: map<Str, Str>, ops: seq<Op>): map<Str, Str> {
    if ops == [] then m else MapNext(MapAfter(m, ops[..|ops| - 1]), ops[|ops| - 1])
  }

  function MapReplies(m: map<Str, Str>, ops: seq<Op>): (rs: seq<Reply>)
    ensures |rs| == |ops|
  {
    if ops == [] then []
    else
      var before := ops[..|ops| - 1];
      MapReplies(m, before) + [MapReply(MapAfter(m, before), ops[|ops| - 1])]
  }

  // ----- the ledger: all that decides what an operation does -----

  // The map, the sizes on the free list, and the lengths of the two files.
  datatype Ledger = Ledger(m: map<Str, Str>, free: multiset<(nat, nat)>, idxEnd: nat, datEnd: nat)

  ghost function LedgerOf(db: Db): Ledger
    requires db.Valid()
    reads db
  {
    Ledger(db.Stored(), FreeSizes(db.book), |db.idx|, |db.dat|)
  }

  function StorePath(l: Ledger, key: Str, data: Str, flag: int): Path {
    if StoreReply(l.m, key, data, flag) != 0 then Refuse
    else if key in l.m then if |l.m[key]| == |data| then Overwrite else Relocate
    else if (|key|, |data| + 1) in l.free then Reuse
    else Append
  }

  // A store that needs a new record past PTR_MAX; its key is lost.
  predicate Loses(l: Ledger, op: Op) {
    op.StoreOp? && !Reaches(StorePath(l, op.key, op.data, op.flag), l.idxEnd)
  }

  function Next(l: Ledger, op: Op): Ledger {
    match op
    case StoreOp(k, d, flag) =>
      var path := StorePath(l, k, d, flag);
      Ledger(if Loses(l, op) then l.m - {k} else MapNext(l.m, op),
             FreeAfter(path, l.m, l.free, k, d),
             l.idxEnd + (if Grows(path) then Size(NewSlot(|k|, l.datEnd, |d| + 1)) else 0),
             l.datEnd + (if Grows(path) then |d| + 1 else 0))
    case DeleteOp(k) =>
      l.(m := l.m - {k}, free := if k in l.m then l.free + multiset{(|k|, |l.m[k]| + 1)} else l.free)
    case FetchOp(_) => l
  }

  // What the record format asks of a store: nothing if it is refused, a proper key and C
  // string otherwise, and a text that fits the buffer if it takes a new record.
  predicate Takes(l: Ledger, op: Op) {
    op.StoreOp? ==>
      var path := StorePath(l, op.key, op.data, op.flag);
      && (!path.Refuse? ==> ProperKey(op.key) && NUL !in op.data)
      && (Grows(path) ==> Proper(NewSlot(|op.key|, l.datEnd, |op.data| + 1)))
  }

  function After(l: Ledger, ops: seq<Op>): Ledger {
    if ops == [] then l else Next(After(l, ops[..|ops| - 1]), ops[|ops| - 1])
  }

  function Replies(l: Ledger, ops: seq<Op>): (rs: seq<Reply>)
    ensures |rs| == |ops|
  {
    if ops == [] then []
    else
      var before := ops[..|ops| - 1];
      Replies(l, before) + [MapReply(After(l, before).m, ops[|ops| - 1])]
  }

  predicate AllTaken(l: Ledger, ops: seq<Op>) {
    forall i :: 0 <= i < |ops| ==> Takes(After(l, ops[..i]), ops[i])
  }

  // ----- any run of the files is a run of the ledger -----

  lemma SamePath(b: Book, l: Ledger, key: Str, data: Str, flag: int)
    requires Sound(b) && l.m == Contents(b) && l.free == FreeSizes(b)
    ensures PathOf(b, key, data, flag) == StorePath(l, key, data, flag)
  {
    hide Sound, Contents, FreeSizes, HasFree;
    KeysOf(b);
    HasFreeSize(b, |key|, |data| + 1);
  }

  method Perform(db: Db, op: Op) returns (reply: Reply)
    requires db.Valid() && Takes(LedgerOf(db), op)
    modifies db
    ensures db.Valid()
    ensures reply == MapReply(old(db.Stored()), op)
    ensures LedgerOf(db) == Next(old(LedgerOf(db)), op)
    ensures Loses(old(LedgerOf(db)), op) ==> HasRecord(db.book, |old(db.idx)|, op.key, op.data)
    ensures old(db.Balanced()) ==> db.Balanced()
  {
    hide Rep, Sound, Reading, Contents, Undisturbed, Count, PathOf, Proper, NewSlot, FreeSizes, FreeAfter, Size;
    hide HasRecord, TallyAfter, Accounts, Filed, Counted;
    match op
    case StoreOp(k, d, flag) =>
      SamePath(db.book, LedgerOf(db), k, d, flag);
      KeysOf(db.book);
      ghost var b, end, path := db.book, |db.idx|, PathOf(db.book, k, d, flag);
      ghost var s1, s2, s3, s4 := db.cnt_stor1, db.cnt_stor2, db.cnt_stor3, db.cnt_stor4;
      var rc := db.Store(k, d, flag);
      StoreAccounts(b, db.book, path, end, s1, s2, s3, s4, db.cnt_delok);
      reply := Code(rc);
    case DeleteOp(k) =>
      var rc := db.Delete(k);
      reply := Code(rc);
    case FetchOp(k) =>
      var r := db.Fetch(k);
      reply := Value(r);
  }

  // Any sequence of operations the record format can take, at any file length.
  method Run(db: Db, ops: seq<Op>) returns (replies: seq<Reply>)
    requires db.Valid() && AllTaken(LedgerOf(db), ops)
    modifies db
    ensures db.Valid()
    ensures replies == Replies(old(LedgerOf(db)), ops)
    ensures LedgerOf(db) == After(old(LedgerOf(db)), ops)
    ensures old(db.Balanced()) ==> db.Balanced()
  {
    hide Rep, Sound, Reading, Contents, Count, Takes, Next;
    ghost var l := LedgerOf(db);
    var n := 0;
    replies := [];
    assert ops[..0] == [];
    while n < |ops|
      invariant db.Valid() && n <= |ops|
      invariant replies == Replies(l, ops[..n])
      invariant LedgerOf(db) == After(l, ops[..n])
      invariant old(db.Balanced()) ==> db.Balanced()
    {
      assert ops[..n + 1][..n] == ops[..n];
      var reply := Perform(db, ops[n]);
      replies := replies + [reply];
      n := n + 1;
    }
    assert ops[..n] == ops;
  }

  // ----- and a run of a plain map exactly as long as nothing is lost -----

  lemma {:induction false} NothingLost(l: Ledger, ops: seq<Op>)
    requires forall i :: 0 <= i < |ops| ==> !Loses(After(l, ops[..i]), ops[i])
    ensures After(l, ops).m == MapAfter(l.m, ops)
    ensures Replies(l, ops) == MapReplies(l.m, ops)
  {
    hide Loses, FreeAfter, StorePath;
    if ops != [] {
      var before := ops[..|ops| - 1];
      forall i | 0 <= i < |before|
        ensures !Loses(After(l, before[..i]), before[i])
      {
        assert before[..i] == ops[..i];
      }
      NothingLost(l, before);
      assert ops[..|ops| - 1] == before;
    }
  }

  // A lost store is one after which the map is not what a plain map would be.
  lemma LossShows(l: Ledger, op: Op)
    ensures Next(l, op).m == MapNext(l.m, op) <==> !Loses(l, op)
  {
    hide FreeAfter, NewSlot;
    if Loses(l, op) {
      assert op.key in MapNext(l.m, op) && op.key !in Next(l, op).m;
    }
  }

  lemma PlainPrefix(l: Ledger, ops: seq<Op>, n: nat)
    requires n <= |ops| && forall i :: 0 <= i < |ops| ==> !Loses(After(l, ops[..i]), ops[i])
    ensures After(l, ops[..n]).m == MapAfter(l.m, ops[..n])
  {
    hide Loses, After, MapAfter;
    var before := ops[..n];
    forall i | 0 <= i < |before|
      ensures !Loses(After(l, before[..i]), before[i])
    {
      assert before[..i] == ops[..i];
    }
    NothingLost(l, before);
  }

  lemma LossSeparates(l: Ledger, ops: seq<Op>, i: nat)
    requires i < |ops| && After(l, ops[..i]).m == MapAfter(l.m, ops[..i])
    requires After(l, ops[..i + 1]).m == MapAfter(l.m, ops[..i + 1])
    ensures !Loses(After(l, ops[..i]), ops[i])
  {
    hide Loses, Next, MapNext;
    assert ops[..i + 1][..i] == ops[..i];
    LossShows(After(l, ops[..i]), ops[i]);
  }

  // The maps agree after every prefix of the run exactly when no store is lost.
  lemma PlainMapExactlyWhen(l: Ledger, ops: seq<Op>)
    ensures (forall n :: 0 <= n <= |ops| ==> After(l, ops[..n]).m == MapAfter(l.m, ops[..n]))
      <==> (forall i :: 0 <= i < |ops| ==> !Loses(After(l, ops[..i]), ops[i]))
  {
    hide Loses, After, MapAfter;
    if forall i :: 0 <= i < |ops| ==> !Loses(After(l, ops[..i]), ops[i]) {
      forall n | 0 <= n <= |ops|
        ensures After(l, ops[..n]).m == MapAfter(l.m, ops[..n])
      {
        PlainPrefix(l, ops, n);
      }
    }
    if forall n :: 0 <= n <= |ops| ==> After(l, ops[..n]).m == MapAfter(l.m, ops[..n]) {
      forall i | 0 <= i < |ops|
        ensures !Loses(After(l, ops[..i]), ops[i])
      {
        LossSeparates(l, ops, i);
      }
    }
  }

  // ----- laws of two operations, with the flags and replies as numbers -----

  lemma TwoReplies(l: Ledger, a: Op, b: Op)
    ensures Replies(l, [a, b]) == [MapReply(l.m, a), MapReply(Next(l, a).m, b)]
  {
    hide MapReply, Next;
    assert [a, b][..1] == [a] && [a][..0] == [];
    assert After(l, []) == l && Replies(l, []) == [];
    assert After(l, [a]) == Next(l, a);
    assert Replies(l, [a]) == [MapReply(l.m, a)];
  }

  // A store that is done needs a new record if no free one fits and the key is not there with
  // data of the same length; past the last offset of six digits its key is lost.
  lemma LosesExactlyWhen(l: Ledger, k: Str, d: Str, flag: int)
    ensures Loses(l, StoreOp(k, d, flag)) <==>
      && l.idxEnd > 999999 && 1 <= |d| <= 1023
      && (if k in l.m then (flag == 2 || flag == 3) && |l.m[k]| != |d|
          else (flag == 1 || flag == 3) && (|k|, |d| + 1) !in l.free)
  {
    StoreReplyIs(l.m, k, d, flag);
  }

  lemma InsertThenInsert(l: Ledger, k: Str, d: Str, e: Str)
    requires k !in l.m && 1 <= |d| <= 1023 && 1 <= |e| <= 1023
    ensures Replies(l, [StoreOp(k, d, 1), StoreOp(k, e, 1)])
         == [Code(0), Code(if Loses(l, StoreOp(k, d, 1)) then 0 else 1)]
  {
    hide Loses, FreeAfter, NewSlot, StorePath;
    TwoReplies(l, StoreOp(k, d, 1), StoreOp(k, e, 1));
    StoreReplyIs(l.m, k, d, 1);
    StoreReplyIs(Next(l, StoreOp(k, d, 1)).m, k, e, 1);
  }

  lemma DeleteThenReplace(l: Ledger, k: Str, d: Str)
    requires 1 <= |d| <= 1023
    ensures Replies(l, [DeleteOp(k), StoreOp(k, d, 2)]) == [Code(if k in l.m then 0 else -1), Code(-1)]
  {
    TwoReplies(l, DeleteOp(k), StoreOp(k, d, 2));
    StoreReplyIs(l.m - {k}, k, d, 2);
  }

  lemma StoreThenFetch(l: Ledger, k: Str, d: Str)
    requires 1 <= |d| <= 1023
    ensures Replies(l, [StoreOp(k, d, 3), FetchOp(k)])
         == [Code(0), Value(if Loses(l, StoreOp(k, d, 3)) then None else Some(d))]
  {
    hide Loses, FreeAfter, NewSlot, StorePath;
    TwoReplies(l, StoreOp(k, d, 3), FetchOp(k));
    StoreReplyIs(l.m, k, d, 3);
  }

  lemma NothingFreed(l: Ledger, k: Str, d: Str)
    ensures FreeAfter(Refuse, l.m, l.free, k, d) == l.free
  {
  }

  // The three modes differ only on whether the key is there.
  lemma InsertAndReplaceAreStore(l: Ledger, k: Str, d: Str)
    requires 1 <= |d| <= 1023
    ensures var done := if k in l.m then 2 else 1;
      var refused := if k in l.m then 1 else 2;
      && Next(l, StoreOp(k, d, done)) == Next(l, StoreOp(k, d, 3))
      && MapReply(l.m, StoreOp(k, d, done)) == Code(0)
      && Next(l, StoreOp(k, d, refused)) == l
      && MapReply(l.m, StoreOp(k, d, refused)) == Code(if k in l.m then 1 else -1)
  {
    hide NewSlot, FreeAfter;
    NothingFreed(l, k, d);
    StoreReplyIs(l.m, k, d, 1);
    StoreReplyIs(l.m, k, d, 2);
    StoreReplyIs(l.m, k, d, 3);
  }

  // ----- an input on which a key is lost -----

  lemma ShortText(datoff: nat, dlen: nat)
    requires datoff <= PTR_MAX + 30 && 2 <= dlen <= 3
    ensures Proper(NewSlot(1, datoff, dlen)) && 15 <= Size(NewSlot(1, datoff, dlen)) <= 30
  {
    DecimalLength(datoff, 7);
    DecimalLength(dlen, 1);
    assert Pow10(1) == 10 && Pow10(2) == 100 && Pow10(3) == 1000 && Pow10(4) == 10000;
    assert Pow10(5) == 100000 && Pow10(6) == 1000000 && Pow10(7) == 10000000;
  }

  // Storing one key with data of another length always takes a new record.
  lemma OtherLength(l: Ledger, key: Str, d: Str)
    requires |key| == 1 && ProperKey(key) && 1 <= |d| <= 2 && NUL !in d
    requires (l.m == map[] && l.free == multiset{}) || (key in l.m && l.m.Keys == {key} && |l.m[key]| != |d|)
    requires l.datEnd <= l.idxEnd <= PTR_MAX + 30
    ensures var op := StoreOp(key, d, DB_STORE);
      && Takes(l, op) && MapReply(l.m, op) == Code(0)
      && (l.idxEnd > PTR_MAX ==> Loses(l, op))
      && Next(l, op).m == (if l.idxEnd <= PTR_MAX then map[key := d] else map[])
      && l.idxEnd + 15 <= Next(l, op).idxEnd <= l.idxEnd + 30
      && Next(l, op).datEnd <= Next(l, op).idxEnd
  {
    hide NewSlot, Proper, FreeAfter, Size;
    ShortText(l.datEnd, |d| + 1);
    assert l.m.Keys == {key} ==> key in l.m;
  }

  // Values of one and two bytes are stored in turn under one key until the index file is
  // longer than PTR_MAX. The next store answers 0, and the database is empty; but its record
  // is in the file, where a scan finds it.
  method LoseTheOnlyKey() returns (db: Db, reply: Reply)
    ensures fresh(db) && db.Valid() && db.Balanced()
    ensures |db.idx| > PTR_MAX
    ensures reply == Code(0) && db.Stored() == map[]
    ensures !Scannable(db.book)
  {
    hide Rep, Sound, Reading, Contents, Count, FreeSizes, Takes, Next, ProperKey, Loses, Scannable, HasRecord;
    db := new Db.Create();
    var key: Str, data: Str := [97], [120];
    ShortKey();
    OtherLength(LedgerOf(db), key, data);
    reply := Perform(db, StoreOp(key, data, DB_STORE));
    while |db.idx| <= PTR_MAX
      invariant fresh(db) && db.Valid() && db.Balanced()
      invariant db.Stored() == map[key := data]
      invariant 1 <= |data| <= 2 && NUL !in data
      invariant |db.dat| <= |db.idx| <= PTR_MAX + 30
      decreases PTR_MAX + 30 - |db.idx|
    {
      data := if |data| == 1 then [120, 120] else [120];
      OtherLength(LedgerOf(db), key, data);
      reply := Perform(db, StoreOp(key, data, DB_STORE));
    }
    data := if |data| == 1 then [120, 120] else [120];
    OtherLength(LedgerOf(db), key, data);
    ghost var end := |db.idx|;
    reply := Perform(db, StoreOp(key, data, DB_STORE));
    LostNotScannable(db.book, end, key, data);
  }

  lemma LostNotScannable(b: Book, x: nat, k: Str, d: Str)
    requires Sound(b) && HasRecord(b, x, k, d) && x > PTR_MAX && !Blank(k)
    ensures !Scannable(b)
  {
    hide Sound;
  }

  lemma ShortKey()
    ensures ProperKey([97]) && !Blank([97])
    ensures ProperKey([32]) && Blank([32])
  {
    assert [97][0] == 97;
  }

  // A scan of that database lists a key although the database is empty.
  method ListLostKey() returns (db: Db, all: seq<(Str, Str)>)
    ensures fresh(db) && db.Valid()
    ensures db.Stored() == map[] && all != []
  {
    hide Rep, Sound, Contents, Scannable, Walk;
    var reply;
    db, reply := LoseTheOnlyKey();
    all := ListAll(db);
  }

  // And a scan misses a key that is one space.
  method ListBlankKey() returns (db: Db, all: seq<(Str, Str)>)
    ensures fresh(db) && db.Valid()
    ensures db.Stored() == map[[32] := [120]] && all == []
  {
    hide Rep, Sound, Reading, Contents, Count, FreeSizes, Takes, Next, ProperKey, Loses, Walk;
    hide Scannable, HasRecord, Blank;
    db := new Db.Create();
    ShortKey();
    OtherLength(LedgerOf(db), [32], [120]);
    var reply := Perform(db, StoreOp([32], [120], DB_STORE));
    OnlyBlank(db.idx, db.dat, db.book);
    all := ListAll(db);
  }

  lemma OnlyBlank(idx: Str, dat: Str, b: Book)
    requires Rep(idx, dat, b.img) && Sound(b) && |idx| <= PTR_MAX
    requires forall k :: k in Contents(b) ==> Blank(k)
    ensures Walk(b.img, HEADER, |idx|) == []
  {
    hide Rep, Sound, Contents, Walk, Blank;
    var s := Walk(b.img, HEADER, |idx|);
    assert s != [] ==> s[0] in s;
    ScanVisits(idx, dat, b);
    NothingBeyond(idx, dat, b.img);
  }

  // ----- a full scan -----

  lemma {:induction false} WalkAll(idx: Str, dat: Str, g: Image, at: nat)
    requires Rep(idx, dat, g) && (at in g.geo || at == |idx|)
    ensures var s := Walk(g, at, |idx|);
      && (forall x :: x in s <==> x in g.geo && x in g.key && at <= x && !Blank(g.key[x]))
      && (forall i, j :: 0 <= i < j < |s| ==> s[i] < s[j])
    decreases |idx| - at
  {
    hide Rep, Walk, Blank;
    WalkStep(idx, dat, g, at);
    if at == |idx| {
      NothingBeyond(idx, dat, g);
    } else {
      var next := at + Size(g.geo[at]);
      WalkAll(idx, dat, g, next);
      NothingBetween(idx, dat, g, at);
      WalkOrder(Walk(g, next, |idx|), at, next);
    }
  }

  lemma WalkOrder(rest: seq<nat>, at: nat, next: nat)
    requires at < next
    requires forall x :: x in rest ==> next <= x
    requires forall i, j :: 0 <= i < j < |rest| ==> rest[i] < rest[j]
    ensures forall i, j :: 0 <= i < j < |[at] + rest| ==> ([at] + rest)[i] < ([at] + rest)[j]
  {
    forall i, j | 0 <= i < j < |[at] + rest|
      ensures ([at] + rest)[i] < ([at] + rest)[j]
    {
      assert ([at] + rest)[j] == rest[j - 1] && rest[j - 1] in rest;
      assert i > 0 ==> ([at] + rest)[i] == rest[i - 1];
    }
  }

  lemma NothingBeyond(idx: Str, dat: Str, g: Image)
    requires Rep(idx, dat, g)
    ensures forall x :: x in g.geo ==> x < |idx| && x in g.key
  {
    hide CellAt, BodyAt, DataAt;
    forall x | x in g.geo
      ensures x < |idx|
    {
      assert SlotOk(g.geo, x, |idx|, |dat|);
    }
  }

  lemma NothingBetween(idx: Str, dat: Str, g: Image, at: nat)
    requires Rep(idx, dat, g) && at in g.geo
    ensures forall x :: x in g.geo && at <= x ==> x == at || at + Size(g.geo[at]) <= x
    ensures forall x :: x in g.geo ==> x in g.key
  {
    hide CellAt, BodyAt, DataAt;
  }

  // A list of pairs that is a map: its pairs and no others, and no key twice.
  ghost predicate ListsMap(all: seq<(Str, Str)>, m: map<Str, Str>) {
    && (forall i :: 0 <= i < |all| ==> all[i].0 in m && m[all[i].0] == all[i].1)
    && (forall k :: k in m ==> HasKey(all, k))
    && (forall i, j :: 0 <= i < j < |all| ==> all[i].0 != all[j].0)
  }

  ghost predicate HasKey(all: seq<(Str, Str)>, k: Str) {
    exists i :: 0 <= i < |all| && all[i].0 == k
  }

  // What keeps a scan from being the map: a live key of nothing but spaces, which it takes
  // for a blanked record, or a lost record past PTR_MAX, which it lists all the same.
  ghost predicate Scannable(b: Book)
    requires Sound(b)
  {
    && (forall k :: k in Contents(b) ==> !Blank(k))
    && (forall x :: x in b.img.geo && x > PTR_MAX && x in b.img.key ==> Blank(b.img.key[x]))
  }

  // db_rewind and then db_nextrec until it reports the end.
  method ListAll(db: Db) returns (all: seq<(Str, Str)>)
    requires db.Valid()
    modifies db
    ensures db.Valid() && db.book == old(db.book) && db.idx == old(db.idx) && db.dat == old(db.dat)
    ensures var s := Walk(db.book.img, HEADER, |db.idx|);
      && |all| == |s|
      && forall i :: 0 <= i < |s| ==>
        s[i] in db.book.img.key && s[i] in db.book.img.data
        && all[i] == (db.book.img.key[s[i]], db.book.img.data[s[i]])
    ensures ListsMap(all, db.Stored()) <==> Scannable(db.book)
  {
    hide Rep, Sound, Walk, ListsMap, Scannable, Contents;
    FirstRecord(db.idx, db.dat, db.book.img);
    db.Rewind();
    ghost var s := Walk(db.book.img, HEADER, |db.idx|);
    all := [];
    var more := true;
    while more
      invariant db.Valid() && db.book == old(db.book) && db.idx == old(db.idx) && db.dat == old(db.dat)
      invariant db.AtRecord()
      invariant |all| <= |s|
      invariant Walk(db.book.img, db.idxpos, |db.idx|) == s[|all|..]
      invariant !more ==> |all| == |s|
      invariant forall i :: 0 <= i < |all| ==>
        s[i] in db.book.img.key && s[i] in db.book.img.data
        && all[i] == (db.book.img.key[s[i]], db.book.img.data[s[i]])
      decreases |s| - |all|, more
    {
      var r := db.NextRec();
      if r.None? {
        more := false;
      } else {
        all := all + [r.value];
      }
    }
    ScanIsMapExactlyWhen(db.idx, db.dat, db.book, all);
  }

  lemma FirstRecord(idx: Str, dat: Str, g: Image)
    requires Rep(idx, dat, g)
    ensures HEADER in g.geo || HEADER == |idx|
  {
  }

  // The scan visits every live key that has something to show, once, with its data, and
  // no blanked record. (A key of nothing but spaces looks like a blanked record.)
  lemma ScanVisits(idx: Str, dat: Str, b: Book)
    requires Rep(idx, dat, b.img) && Sound(b)
    ensures var s := Walk(b.img, HEADER, |idx|);
      && (forall k :: k in Contents(b) && !Blank(k) ==> b.at[k] in s)
      && (forall x :: x in s ==> x in b.img.geo && x in b.img.key && x in b.img.data && !Blank(b.img.key[x]))
      && (forall x :: x in b.img.geo && x in b.img.key && !Blank(b.img.key[x]) ==> x in s)
      && (forall x :: x in s && x <= PTR_MAX ==>
        && b.img.key[x] in Contents(b)
        && b.at[b.img.key[x]] == x && Contents(b)[b.img.key[x]] == b.img.data[x])
      && (forall i, j :: 0 <= i < j < |s| ==> s[i] < s[j])
  {
    hide Rep, Walk, Sound, Contents, Blank;
    FirstRecord(idx, dat, b.img);
    WalkAll(idx, dat, b.img, HEADER);
    KeysOf(b);
    RecordsAhead(idx, dat, b.img);
    SameDomains(idx, dat, b.img);
    forall k | k in Contents(b) && !Blank(k)
      ensures b.at[k] in Walk(b.img, HEADER, |idx|)
    {
      LiveRecord(b, k);
      KeyOfLive(b, k);
    }
    forall x | x in Walk(b.img, HEADER, |idx|) && x <= PTR_MAX
      ensures b.img.key[x] in b.at && b.at[b.img.key[x]] == x
    {
      NotBlankIsLive(b, x);
    }
    forall k | k in b.at
      ensures b.at[k] in b.img.data && Contents(b)[k] == b.img.data[b.at[k]]
    {
      LiveRecord(b, k);
    }
  }

  lemma SameDomains(idx: Str, dat: Str, g: Image)
    requires Rep(idx, dat, g)
    ensures forall x :: x in g.geo ==> x in g.key && x in g.data
  {
  }

  // The scan is the map, each pair once, exactly when no live key is blank and no record
  // has been lost.
  lemma ScanIsMapExactlyWhen(idx: Str, dat: Str, b: Book, all: seq<(Str, Str)>)
    requires Rep(idx, dat, b.img) && Sound(b)
    requires var s := Walk(b.img, HEADER, |idx|);
      |all| == |s| && forall i :: 0 <= i < |s| ==>
        s[i] in b.img.key && s[i] in b.img.data && all[i] == (b.img.key[s[i]], b.img.data[s[i]])
    ensures ListsMap(all, Contents(b)) <==> Scannable(b)
  {
    hide Rep, Sound, Walk, Contents, Blank;
    KeysOf(b);
    ScanVisits(idx, dat, b);
    if Scannable(b) {
      ScannableLists(idx, dat, b, all);
    } else if ListsMap(all, Contents(b)) {
      ListedScannable(idx, dat, b, all);
    }
  }

  lemma ScannableLists(idx: Str, dat: Str, b: Book, all: seq<(Str, Str)>)
    requires Rep(idx, dat, b.img) && Sound(b) && Scannable(b)
    requires var s := Walk(b.img, HEADER, |idx|);
      |all| == |s| && forall i :: 0 <= i < |s| ==>
        s[i] in b.img.key && s[i] in b.img.data && all[i] == (b.img.key[s[i]], b.img.data[s[i]])
    ensures ListsMap(all, Contents(b))
  {
    hide Rep, Sound, Walk, Contents, Blank;
    KeysOf(b);
    ScanVisits(idx, dat, b);
    var s := Walk(b.img, HEADER, |idx|);
    forall i | 0 <= i < |s|
      ensures s[i] <= PTR_MAX && all[i].0 in Contents(b)
        && b.at[all[i].0] == s[i] && Contents(b)[all[i].0] == all[i].1
    {
      assert s[i] in s;
    }
    forall k | k in Contents(b)
      ensures HasKey(all, k)
    {
      var i :| 0 <= i < |s| && s[i] == b.at[k];
      KeyOfLive(b, k);
      assert all[i].0 == k;
    }
  }

  lemma ListedScannable(idx: Str, dat: Str, b: Book, all: seq<(Str, Str)>)
    requires Rep(idx, dat, b.img) && Sound(b)
    requires var s := Walk(b.img, HEADER, |idx|);
      |all| == |s| && forall i :: 0 <= i < |s| ==>
        s[i] in b.img.key && s[i] in b.img.data && all[i] == (b.img.key[s[i]], b.img.data[s[i]])
    requires ListsMap(all, Contents(b))
    ensures Scannable(b)
  {
    hide Rep, Sound, Walk, Contents, Blank;
    KeysOf(b);
    ScanVisits(idx, dat, b);
    var s := Walk(b.img, HEADER, |idx|);
    forall k | k in Contents(b)
      ensures !Blank(k)
    {
      assert HasKey(all, k);
      var i :| 0 <= i < |all| && all[i].0 == k;
      assert s[i] in s;
    }
    forall x | x in b.img.geo && x > PTR_MAX && x in b.img.key
      ensures Blank(b.img.key[x])
    {
      if !Blank(b.img.key[x]) {
        TwiceListed(idx, dat, b, all, x);
      }
    }
  }

  // A lost record is listed beside the live one of its key, if there is one.
  lemma TwiceListed(idx: Str, dat: Str, b: Book, all: seq<(Str, Str)>, x: nat)
    requires Rep(idx, dat, b.img) && Sound(b)
    requires var s := Walk(b.img, HEADER, |idx|);
      |all| == |s| && forall i :: 0 <= i < |s| ==>
        s[i] in b.img.key && s[i] in b.img.data && all[i] == (b.img.key[s[i]], b.img.data[s[i]])
    requires x in b.img.geo && x > PTR_MAX && x in b.img.key && !Blank(b.img.key[x])
    ensures !ListsMap(all, Contents(b))
  {
    hide Rep, Sound, Walk, Contents, Blank, HasKey;
    KeysOf(b);
    ScanVisits(idx, dat, b);
    var s := Walk(b.img, HEADER, |idx|);
    var i :| 0 <= i < |s| && s[i] == x;
    var k := b.img.key[x];
    if k in Contents(b) {
      LiveWithinReach(b, k);
      var j :| 0 <= j < |s| && s[j] == b.at[k];
      assert all[i].0 == k && all[j].0 == k && i != j;
      assert i < j || j < i;
    } else {
      assert all[i].0 == k;
    }
  }

  lemma LiveWithinReach(b: Book, k: Str)
    requires Sound(b) && k in b.at
    ensures b.at[k] <= PTR_MAX && b.at[k] in b.img.key && b.img.key[b.at[k]] == k
  {
    hide HashCell, WellLinked;
    assert b.at[k] in b.owner;
  }

  lemma PastHeader(idx: Str, dat: Str, g: Image, x: nat)
    requires Rep(idx, dat, g) && x in g.geo
    ensures HEADER <= x
  {
    assert SlotOk(g.geo, x, |idx|, |dat|);
  }

  lemma NotBlankIsLive(b: Book, x: nat)
    requires Sound(b) && x in b.img.geo && x <= PTR_MAX && x in b.img.key && !Blank(b.img.key[x])
    ensures b.img.key[x] in b.at && b.at[b.img.key[x]] == x
  {
    hide WellLinked, HashCell;
  }

  // ----- a scan with a lookup between two reads -----

  // What the next read returns if the descriptor stands behind the record at x.
  ghost predicate ReadsBehind(db: Db, x: nat, r: Option<(Str, Str)>)
    reads db
  {
    && x in db.book.img.geo
    && var s := Walk(db.book.img, x + Size(db.book.img.geo[x]), |db.idx|);
    if s == [] then r == None
    else
      && s[0] in db.book.img.key && s[0] in db.book.img.data
      && r == Some((db.book.img.key[s[0]], db.book.img.data[s[0]]))
  }

  // A lookup moves the descriptor that the scan uses. The scan goes on behind the record
  // found, or behind the last record of the chain searched; if that chain is empty it goes on
  // in the header, and reports the end at once if the next but one chain is empty, too.
  method NextAfterFetch(db: Db, key: Str) returns (value: Option<Str>, r: Option<(Str, Str)>)
    requires db.Valid()
    modifies db
    ensures db.Valid() && db.book == old(db.book) && db.idx == old(db.idx) && db.dat == old(db.dat)
    ensures HashCell(key) in db.book.lists
    ensures var chain, next := db.book.lists[HashCell(key)], HashCell(key) + 2 * PTR_SZ;
      if key in db.book.at then ReadsBehind(db, db.book.at[key], r)
      else if chain != [] then ReadsBehind(db, chain[|chain| - 1], r)
      else IsHead(next) && next in db.book.lists && db.book.lists[next] == [] ==> r == None
  {
    hide Rep, Sound, Contents, Walk, HashCell, IsHead, ParseIdx;
    KeysOf(db.book);
    ListStart(db.idx, db.dat, db.book, HashCell(key));
    value := db.Fetch(key);
    BehindIsBoundary(db);
    if key !in db.book.at && db.book.lists[HashCell(key)] == [] {
      HeaderUnreadable(db.idx, db.dat, db.book, HashCell(key) + PTR_SZ);
    }
    r := db.NextRec();
  }

  lemma BehindIsBoundary(db: Db)
    requires db.Valid()
    ensures forall x :: db.Behind(x) ==> db.AtRecord()
  {
    hide Rep, Sound;
    forall x | db.Behind(x)
      ensures db.AtRecord()
    {
      RecordPlace(db.idx, db.dat, db.book.img, x);
    }
  }

  // The length field of a record that began at a cell of the header would be the start of
  // the next cell.
  lemma HeaderUnreadable(idx: Str, dat: Str, b: Book, h: nat)
    requires Rep(idx, dat, b.img) && Sound(b)
    ensures IsHead(h + PTR_SZ) && h + PTR_SZ in b.lists && b.lists[h + PTR_SZ] == [] ==> ParseIdx(idx, h).None?
  {
    hide Rep, Sound, ParseBody, Atol, Pad, IsHead;
    var next := h + PTR_SZ;
    if IsHead(next) && next in b.lists && b.lists[next] == [] {
      ListStart(idx, dat, b, next);
      CellText(idx, dat, b.img, next);
      EmptyCell();
      assert idx[h + PTR_SZ..h + PTR_SZ + IDXLEN_SZ] == idx[next..next + PTR_SZ][..IDXLEN_SZ];
    }
  }

  lemma CellText(idx: Str, dat: Str, g: Image, c: nat)
    requires Rep(idx, dat, g) && c in g.ptr
    ensures c + PTR_SZ <= |idx| && idx[c..c + PTR_SZ] == Pad(g.ptr[c], PTR_SZ)
  {
    assert CellAt(idx, c, g.ptr[c]);
  }

  lemma EmptyCell()
    ensures |Pad(0, PTR_SZ)| == PTR_SZ && Atol(Pad(0, PTR_SZ)[..IDXLEN_SZ]) == 0
  {
    assert Decimal(0) == [ZERO];
    var s := Pad(0, PTR_SZ)[..IDXLEN_SZ];
    assert s == [SPACE, SPACE, SPACE, SPACE];
    assert SkipSpace([]) == [] && s[1..] == [SPACE, SPACE, SPACE];
    assert SkipSpace([SPACE]) == [];
    assert SkipSpace([SPACE, SPACE]) == SkipSpace([SPACE]);
    assert SkipSpace([SPACE, SPACE, SPACE]) == SkipSpace([SPACE, SPACE]);
  }

  // With one key stored, looking for another one ends the scan before it has begun.
  method ScanCutShort() returns (db: Db, r: Option<(Str, Str)>)
    ensures fresh(db) && db.Valid()
    ensures db.Stored() == map[[97] := [120]] && r == None
  {
    hide Rep, Sound, Reading, Contents, Count, FreeSizes, Takes, Next, ProperKey, Loses, Walk, HasRecord, HashCell;
    db := new Db.Create();
    ShortKey();
    OtherLength(LedgerOf(db), [97], [120]);
    var reply := Perform(db, StoreOp([97], [120], DB_STORE));
    db.Rewind();
    KeysOf(db.book);
    ListStart(db.idx, db.dat, db.book, HashCell([98]));
    ListStart(db.idx, db.dat, db.book, HashCell([100]));
    NearbyCells();
    EmptyChain(db.book, HashCell([98]));
    EmptyChain(db.book, HashCell([100]));
    var value;
    value, r := NextAfterFetch(db, [98]);
  }

  lemma NearbyCells()
    ensures HashCell([97]) != HashCell([98]) && HashCell([97]) != HashCell([100])
    ensures HashCell([100]) == HashCell([98]) + 2 * PTR_SZ && [98] != [97]
  {
    assert HashSum([]) == 0;
    assert [97][..0] == [] && [98][..0] == [] && [100][..0] == [];
    assert HashSum([97]) == 97 && HashSum([98]) == 98 && HashSum([100]) == 100;
    assert [98][0] != [97][0];
  }

  lemma EmptyChain(b: Book, h: nat)
    requires Sound(b) && IsHead(h) && h != FREE_OFF && h in b.lists
    requires forall k :: k in b.at ==> HashCell(k) != h
    ensures b.lists[h] == []
  {
    hide Sound, HashCell;
    if b.lists[h] != [] {
      KeyOfHead(b, h);
    }
  }

  lemma KeyOfHead(b: Book, h: nat)
    requires Sound(b) && IsHead(h) && h != FREE_OFF && h in b.lists && b.lists[h] != []
    ensures exists k :: k in b.at && HashCell(k) == h
  {
    hide HashCell;
    OnChain(b, h, 0);
    var x := b.lists[h][0];
    assert x in b.lists[h];
    assert b.owner[x] == h;
    assert HashCell(b.img.key[x]) == h;
  }

  // ----- the bytes determine the map -----

  lemma {:induction false} SameSlots(idx: Str, dat: Str, g: Image, g': Image, at: nat)
    requires Rep(idx, dat, g) && Rep(idx, dat, g')
    requires (at in g.geo && at in g'.geo) || at == |idx|
    ensures forall x :: x in g.geo && at <= x ==>
      && x in g'.geo && x in g.key && x in g'.key && x in g.data && x in g'.data
      && g.key[x] == g'.key[x] && g.data[x] == g'.data[x]
    decreases |idx| - at
  {
    hide Rep, ParseIdx, DatAt, Walk;
    WalkStep(idx, dat, g, at);
    WalkStep(idx, dat, g', at);
    if at == |idx| {
      NothingBeyond(idx, dat, g);
    } else {
      assert g.geo[at].len == g'.geo[at].len;
      var next := at + Size(g.geo[at]);
      NothingAtEnd(idx, dat, g);
      NothingAtEnd(idx, dat, g');
      SameSlots(idx, dat, g, g', next);
      NothingBetween(idx, dat, g, at);
    }
  }

  lemma SameCells(idx: Str, dat: Str, g: Image, g': Image, c: nat)
    requires Rep(idx, dat, g) && Rep(idx, dat, g') && c in g.ptr && c in g'.ptr
    ensures g.ptr[c] == g'.ptr[c]
  {
    hide Rep, PtrAt;
    ReadCell(idx, dat, g, c);
    ReadCell(idx, dat, g', c);
  }

  // Two descriptions of one list agree from any common point on.
  lemma {:induction false} SameList(idx: Str, dat: Str, b: Book, b': Book, h: nat, i: nat)
    requires Rep(idx, dat, b.img) && Rep(idx, dat, b'.img) && Sound(b) && Sound(b')
    requires IsHead(h) && h in b.lists && h in b'.lists
    requires i <= |b.lists[h]| && i <= |b'.lists[h]|
    requires i > 0 ==> b.lists[h][i - 1] == b'.lists[h][i - 1]
    ensures |b.lists[h]| <= |b'.lists[h]|
    ensures forall j :: i <= j < |b.lists[h]| ==> b.lists[h][j] == b'.lists[h][j]
    decreases |b.lists[h]| - i
  {
    hide Rep, Sound, ParseIdx;
    if i < |b.lists[h]| {
      if i == 0 {
        ListStart(idx, dat, b, h);
        ListStart(idx, dat, b', h);
      } else {
        ListStep(idx, dat, b, h, i - 1);
        ListStep(idx, dat, b', h, i - 1);
        SameCells(idx, dat, b.img, b'.img, b.lists[h][i - 1]);
      }
      assert Nth(b.lists[h], i) == Nth(b'.lists[h], i);
      ListEnd(b, h, i);
      ListEnd(b', h, i);
      assert b.lists[h][i] == b'.lists[h][i];
      SameList(idx, dat, b, b', h, i + 1);
    }
  }

  lemma SameLive(idx: Str, dat: Str, b: Book, b': Book, k: Str)
    requires Rep(idx, dat, b.img) && Rep(idx, dat, b'.img) && Sound(b) && Sound(b')
    requires k in b.at
    ensures k in b'.at && b'.at[k] == b.at[k]
    ensures b.at[k] in b.img.data && b.at[k] in b'.img.data
    ensures b'.img.data[b.at[k]] == b.img.data[b.at[k]]
  {
    hide Rep, Sound, Walk, HashCell;
    var i := Position(b, k);
    var h := HashCell(k);
    ListStart(idx, dat, b', h);
    SameList(idx, dat, b, b', h, 0);
    FirstRecord(idx, dat, b.img);
    FirstRecord(idx, dat, b'.img);
    LiveRecord(b, k);
    KeyOfLive(b, k);
    SameHeader(idx, dat, b.img, b'.img);
    SameSlots(idx, dat, b.img, b'.img, HEADER);
    PastHeader(idx, dat, b.img, b.at[k]);
    OnChain(b', h, i);
  }

  lemma SameHeader(idx: Str, dat: Str, g: Image, g': Image)
    requires Rep(idx, dat, g) && Rep(idx, dat, g')
    ensures (HEADER in g.geo && HEADER in g'.geo) || HEADER == |idx|
  {
  }

  // No two maps are stored by the same pair of files.
  lemma FilesDetermineContents(idx: Str, dat: Str, b: Book, b': Book)
    requires Rep(idx, dat, b.img) && Rep(idx, dat, b'.img) && Sound(b) && Sound(b')
    ensures Contents(b) == Contents(b')
  {
    hide Rep, Sound, Contents;
    KeysOf(b);
    KeysOf(b');
    forall k
      ensures k in b.at <==> k in b'.at
      ensures k in b.at ==> Contents(b)[k] == Contents(b')[k]
    {
      if k in b.at {
        SameLive(idx, dat, b, b', k);
        LiveRecord(b, k);
        LiveRecord(b', k);
      } else if k in b'.at {
        SameLive(idx, dat, b', b, k);
      }
    }
  }
}
