// The database handle and the operations of apue_db.c on its two files. The files are
// in-memory byte sequences on which system calls succeed; locks are not modelled.
//
// One repair: _db_readidx reads the pointer field of a record into a local buffer and
// returns db->ptrval without storing it there. Every caller relies on the decoded field,
// so ReadIdx decodes it. StaleWalk.dfy says what happens without the repair.

module Database {
  import opened Wrappers
  import opened Bytes
  import opened IndexRecord
  import opened FileImage
  import opened Lists
  import opened Directory

  const DB_INSERT := 1
  const DB_REPLACE := 2
  const DB_STORE := 3

  datatype Whence = Set | End

  // What a read of len bytes of data at off returns: a C string cut out of the file.
  function DatAt(dat: Str, off: nat, len: nat): Option<Str>
    requires len > 0
  {
    if off + len > |dat| || dat[off + len - 1] != NEWLINE then None
    else Some(CString(dat[off..off + len - 1]))
  }

  // In numbers: the bytes are there, the last one is a newline, and the string ends with the
  // others or at their first NUL.
  lemma DatAtExactlyWhen(dat: Str, off: nat, len: nat, s: Str)
    requires len > 0
    ensures DatAt(dat, off, len) == Some(s) <==>
      (off + len <= |dat| && dat[off + len - 1] == 10 && s <= dat[off..off + len - 1] && 0 !in s
       && (|s| == len - 1 || dat[off + |s|] == 0))
  {
    hide CString;
    if off + len <= |dat| && s <= dat[off..off + len - 1] && 0 !in s {
      CStringIs(dat[off..off + len - 1], s);
    } else if off + len <= |dat| {
      var t := CString(dat[off..off + len - 1]);
    }
  }

  lemma CStringIs(body: Str, s: Str)
    requires s <= body && 0 !in s
    ensures CString(body) == s <==> s == body || body[|s|] == 0
  {
    var t := CString(body);
    assert forall i :: 0 <= i < |s| ==> body[i] == s[i] && s[i] in s;
    assert forall i :: 0 <= i < |t| ==> body[i] == t[i] && t[i] in t;
    assert t == body[..|t|] && s == body[..|s|];
  }

  // ----- walking a list -----

  lemma ListStart(idx: Str, dat: Str, b: Book, h: nat)
    requires Rep(idx, dat, b.img) && Sound(b) && IsHead(h)
    ensures h in b.img.ptr && h in b.lists && h + PTR_SZ <= |idx|
    ensures PtrAt(idx, h) == b.img.ptr[h] == Nth(b.lists[h], 0) <= PTR_MAX
  {
    HeadIsCell(b.img.ptr, b.lists, b.owner, h);
    CellInside(idx, dat, b.img, h);
    ReadCell(idx, dat, b.img, h);
  }

  // Reading the record at position i of a list yields its fields and the next position.
  lemma ListStep(idx: Str, dat: Str, b: Book, h: nat, i: nat)
    requires Rep(idx, dat, b.img) && Sound(b) && IsHead(h) && h in b.lists
    requires i < |b.lists[h]|
    ensures var x := b.lists[h][i];
      && x != 0 && x <= PTR_MAX && x in b.img.geo && x in b.img.ptr && x in b.img.key
      && b.img.ptr[x] == Nth(b.lists[h], i + 1)
      && b.img.geo[x].dlen > 0
      && ParseIdx(idx, x) == Some(Entry(b.img.ptr[x], b.img.geo[x].len, b.img.key[x],
                                        b.img.geo[x].datoff, b.img.geo[x].dlen))
  {
    var s := b.lists[h];
    Reachable(b.img.ptr, b.lists, b.owner, h, i);
    assert Linked(b.img.ptr, h, s);
    assert Pred(h, s, i + 1) == s[i];
    Inside(idx, dat, b.img, s[i]);
    ReadRecord(idx, dat, b.img, s[i]);
  }

  lemma ListEnd(b: Book, h: nat, i: nat)
    requires Sound(b) && IsHead(h) && h in b.lists && i <= |b.lists[h]|
    ensures Nth(b.lists[h], i) == 0 <==> i == |b.lists[h]|
  {
    if i < |b.lists[h]| {
      Reachable(b.img.ptr, b.lists, b.owner, h, i);
    }
  }

  lemma CellOfHash(key: Str, h: nat)
    requires h == HashSum(key) % NHASH
    ensures h * PTR_SZ + HASH_OFF == HashCell(key)
  {
    hide HashSum;
  }

  lemma NotOnChain(b: Book, key: Str)
    requires Sound(b) && HashCell(key) in b.lists
    requires forall j :: 0 <= j < |b.lists[HashCell(key)]| ==>
      b.lists[HashCell(key)][j] in b.img.key && b.img.key[b.lists[HashCell(key)][j]] != key
    ensures key !in b.at
  {
    if key in b.at {
      var i := Position(b, key);
    }
  }

  lemma OnChainStanding(idx: Str, dat: Str, b: Book, key: Str, i: nat)
    requires Rep(idx, dat, b.img) && Sound(b) && HashCell(key) in b.lists
    requires i < |b.lists[HashCell(key)]|
    requires b.lists[HashCell(key)][i] in b.img.key && b.img.key[b.lists[HashCell(key)][i]] == key
    ensures Standing(b, key, i)
  {
    OnChain(b, HashCell(key), i);
    ListStep(idx, dat, b, HashCell(key), i);
    HeadIsCell(b.img.ptr, b.lists, b.owner, FREE_OFF);
  }

  // A free record that can take a key and a value of these lengths.
  ghost predicate FreeFit(b: Book, j: nat, klen: int, dlen: int) {
    && FREE_OFF in b.lists && j < |b.lists[FREE_OFF]|
    && b.lists[FREE_OFF][j] in b.img.geo
    && b.img.geo[b.lists[FREE_OFF][j]].klen == klen
    && b.img.geo[b.lists[FREE_OFF][j]].dlen == dlen
  }

  ghost predicate HasFree(b: Book, klen: int, dlen: int) {
    exists j :: FreeFit(b, j, klen, dlen)
  }

  lemma KeyLength(idx: Str, dat: Str, b: Book, x: nat)
    requires Rep(idx, dat, b.img) && x in b.img.geo
    ensures |b.img.key[x]| == b.img.geo[x].klen && ProperKey(b.img.key[x])
    ensures |b.img.data[x]| + 1 == b.img.geo[x].dlen && Proper(b.img.geo[x])
  {
    assert BodyAt(idx, x, b.img.key[x], b.img.geo[x]);
    assert DataAt(dat, b.img.geo[x], b.img.data[x]);
  }

  lemma UnlinkCell(idx: Str, dat: Str, b: Book, h: nat, i: nat)
    requires Rep(idx, dat, b.img) && Sound(b) && IsHead(h) && h in b.lists && i < |b.lists[h]|
    ensures var p, x := Pred(h, b.lists[h], i), b.lists[h][i];
      && x in b.img.ptr && b.img.ptr[x] <= PTR_MAX && p in b.img.ptr && p + PTR_SZ <= |idx|
      && |WriteAt(idx, p, Pad(b.img.ptr[x], PTR_SZ))| == |idx|
      && Rep(WriteAt(idx, p, Pad(b.img.ptr[x], PTR_SZ)), dat,
             b.img.(ptr := UnlinkPtr(b.img.ptr, b.lists, h, i)))
  {
    Reachable(b.img.ptr, b.lists, b.owner, h, i);
    ReadCell(idx, dat, b.img, b.lists[h][i]);
    WriteCell(idx, dat, b.img, Pred(h, b.lists[h], i), b.img.ptr[b.lists[h][i]]);
  }

  // The writes of _db_dodelete, in their order, on files and image.
  lemma DeleteWrites(idx: Str, dat: Str, b: Book, k: Str, i: nat)
    requires Rep(idx, dat, b.img) && Sound(b) && Standing(b, k, i)
    ensures var x, p := b.at[k], Pred(HashCell(k), b.lists[HashCell(k)], i);
      var s := b.img.geo[x];
      && s.datoff <= |dat| && x <= |idx| && Proper(s) && |k| == s.klen
      && b.img.ptr[FREE_OFF] <= PTR_MAX && b.img.ptr[x] <= PTR_MAX && x <= PTR_MAX
      && var dat1 := WriteAt(dat, s.datoff, Spaces(s.dlen - 1) + [NEWLINE]);
      var idx1 := WriteAt(idx, x, Encode(b.img.ptr[FREE_OFF], Spaces(s.klen), s));
      FREE_OFF <= |idx1|
      && var idx2 := WriteAt(idx1, FREE_OFF, Pad(x, PTR_SZ));
      p <= |idx2|
      && |WriteAt(idx2, p, Pad(b.img.ptr[x], PTR_SZ))| == |idx| && |dat1| == |dat|
      && Rep(WriteAt(idx2, p, Pad(b.img.ptr[x], PTR_SZ)), dat1, Deleted(b, k, i).img)
  {
    hide Rep, WriteAt, Sound, WellLinked, Filed, Encode, Pad, HashCell, IsHead, Proper;
    var x, h := b.at[k], HashCell(k);
    var p := Pred(h, b.lists[h], i);
    var s := b.img.geo[x];
    var g := b.img;
    DeleteFacts(idx, dat, b, k, i);
    RewriteData(idx, dat, g, x, Spaces(s.dlen - 1));
    var g1 := g.(data := g.data[x := Spaces(s.dlen - 1)]);
    var dat1 := WriteAt(dat, s.datoff, Spaces(s.dlen - 1) + [NEWLINE]);
    RewriteRecord(idx, dat1, g1, x, g.ptr[FREE_OFF], Spaces(s.klen));
    var g2 := g1.(ptr := g.ptr[x := g.ptr[FREE_OFF]], key := g.key[x := Spaces(s.klen)]);
    var idx1 := WriteAt(idx, x, Encode(g.ptr[FREE_OFF], Spaces(s.klen), s));
    WriteCell(idx1, dat1, g2, FREE_OFF, x);
    var g3 := g2.(ptr := g2.ptr[FREE_OFF := x]);
    var idx2 := WriteAt(idx1, FREE_OFF, Pad(x, PTR_SZ));
    WriteCell(idx2, dat1, g3, p, g.ptr[x]);
    assert g3.ptr[p := g.ptr[x]] == MovePtr(g.ptr, b.lists, h, i, FREE_OFF);
  }

  lemma DeleteFacts(idx: Str, dat: Str, b: Book, k: Str, i: nat)
    requires Rep(idx, dat, b.img) && Sound(b) && Standing(b, k, i)
    ensures var x, p := b.at[k], Pred(HashCell(k), b.lists[HashCell(k)], i);
      var s := b.img.geo[x];
      && FREE_OFF in b.img.ptr && x in b.img.ptr && p in b.img.ptr
      && x != p && x != FREE_OFF && p != FREE_OFF
      && b.img.ptr[FREE_OFF] <= PTR_MAX && b.img.ptr[x] <= PTR_MAX && x <= PTR_MAX
      && s.dlen > 0 && NUL !in Spaces(s.dlen - 1)
      && Proper(s) && |k| == s.klen && ProperKey(Spaces(s.klen))
      && x <= |idx| && s.datoff <= |dat|
  {
    hide Rep, WellLinked, Filed, HashCell, HashSum, Proper, ProperKey, Addressed;
    var x, h := b.at[k], HashCell(k);
    OnChain(b, h, i);
    ListStep(idx, dat, b, h, i);
    UnlinkCell(idx, dat, b, h, i);
    ListStart(idx, dat, b, FREE_OFF);
    PredApart(b, h, i);
    KeyLength(idx, dat, b, x);
    Inside(idx, dat, b.img, x);
    KeyOfLive(b, k);
    BlankKey(b.img.geo[x].klen);
  }

  lemma PredApart(b: Book, h: nat, i: nat)
    requires Sound(b) && IsHead(h) && h != FREE_OFF && h in b.lists && i < |b.lists[h]|
    ensures b.lists[h][i] != FREE_OFF && Pred(h, b.lists[h], i) != FREE_OFF
    ensures Pred(h, b.lists[h], i) != b.lists[h][i]
  {
    Reachable(b.img.ptr, b.lists, b.owner, h, i);
    assert Owns(b.owner, h, b.lists[h]);
    if i > 0 {
      Reachable(b.img.ptr, b.lists, b.owner, h, i - 1);
    }
  }

  lemma KeyOfLive(b: Book, k: Str)
    requires Sound(b) && k in b.at
    ensures b.at[k] in b.img.key && b.img.key[b.at[k]] == k
  {
  }

  lemma BlankKey(n: nat)
    ensures ProperKey(Spaces(n))
  {
  }

  // The writes that fill a record just taken off the free list.
  lemma ReuseWrites(idx: Str, dat: Str, b: Book, j: nat, k: Str, d: Str)
    requires Sound(b) && Fits(b, j, k, d) && ProperKey(k) && NUL !in d
    requires Rep(idx, dat, b.img.(ptr := UnlinkPtr(b.img.ptr, b.lists, FREE_OFF, j)))
    requires b.img.ptr[HashCell(k)] <= PTR_MAX
    ensures var x := b.lists[FREE_OFF][j];
      var s := b.img.geo[x];
      && s.datoff <= |dat| && x <= |idx| && x <= PTR_MAX && Proper(s)
      && var dat1 := WriteAt(dat, s.datoff, d + [NEWLINE]);
      var idx1 := WriteAt(idx, x, Encode(b.img.ptr[HashCell(k)], k, s));
      HashCell(k) <= |idx1|
      && |WriteAt(idx1, HashCell(k), Pad(x, PTR_SZ))| == |idx| && |dat1| == |dat|
      && Rep(WriteAt(idx1, HashCell(k), Pad(x, PTR_SZ)), dat1, Reused(b, j, k, d).img)
  {
    hide Rep, WriteAt, WellLinked, Filed, Encode, Pad, HashCell, IsHead, Proper, ProperKey;
    var x, h := b.lists[FREE_OFF][j], HashCell(k);
    var s, v := b.img.geo[x], b.img.ptr[h];
    var g := b.img.(ptr := UnlinkPtr(b.img.ptr, b.lists, FREE_OFF, j));
    Inside(idx, dat, g, x);
    FreeAddress(b, j);
    RewriteData(idx, dat, g, x, d);
    var g1 := g.(data := g.data[x := d]);
    var dat1 := WriteAt(dat, s.datoff, d + [NEWLINE]);
    RewriteRecord(idx, dat1, g1, x, v, k);
    var g2 := g1.(ptr := g1.ptr[x := v], key := g1.key[x := k]);
    WriteCell(WriteAt(idx, x, Encode(v, k, s)), dat1, g2, h, x);
  }

  lemma FreeAddress(b: Book, j: nat)
    requires Sound(b) && FREE_OFF in b.lists && j < |b.lists[FREE_OFF]|
    ensures b.lists[FREE_OFF][j] <= PTR_MAX && b.lists[FREE_OFF][j] in b.img.ptr
  {
    Reachable(b.img.ptr, b.lists, b.owner, FREE_OFF, j);
  }

  // The writes that append a record and link it in, if a pointer can reach it.
  lemma AppendWrites(idx: Str, dat: Str, b: Book, k: Str, d: Str)
    requires Rep(idx, dat, b.img) && Sound(b) && ProperKey(k) && NUL !in d
    requires Proper(NewSlot(|k|, |dat|, |d| + 1))
    ensures HashCell(k) in b.img.ptr && HashCell(k) in b.lists
    ensures b.img.ptr[HashCell(k)] <= PTR_MAX
    ensures |idx| !in b.img.geo && |idx| !in b.img.ptr && !IsHead(|idx|)
    ensures var s := NewSlot(|k|, |dat|, |d| + 1);
      var idx1 := WriteAt(idx, |idx|, Encode(b.img.ptr[HashCell(k)], k, s));
      && |idx1| == |idx| + Size(s) && HashCell(k) <= |idx1|
      && var idx2 := WriteAt(idx1, HashCell(k), Pad(|idx|, PTR_SZ));
      && (|idx| <= PTR_MAX ==> |idx2| == |idx1|)
      && Rep(if |idx| <= PTR_MAX then idx2 else idx1, WriteAt(dat, |dat|, d + [NEWLINE]),
             Appended(b, |idx|, s, k, d).img)
  {
    hide Rep, WriteAt, WellLinked, Filed, Encode, Pad, HashCell, HashSum, Proper, ProperKey, Tail;
    var h, s := HashCell(k), NewSlot(|k|, |dat|, |d| + 1);
    ListStart(idx, dat, b, h);
    AppendRecord(idx, dat, b.img, s, b.img.ptr[h], k, d);
    AppendCell(idx, dat, b.img);
    var g1 := WithRecord(b.img, |idx|, s, b.img.ptr[h], k, d);
    var idx1 := WriteAt(idx, |idx|, Encode(b.img.ptr[h], k, s));
    if |idx| <= PTR_MAX {
      WriteCell(idx1, WriteAt(dat, |dat|, d + [NEWLINE]), g1, h, |idx|);
    }
  }

  lemma AppendCell(idx: Str, dat: Str, g: Image)
    requires Rep(idx, dat, g)
    ensures !IsHead(|idx|)
  {
  }

  lemma KeysOf(b: Book)
    requires Sound(b)
    ensures Filed(b.img.key, b.img.data, b.owner, b.at)
    ensures Contents(b).Keys == b.at.Keys
  {
  }

  lemma ReadLive(idx: Str, dat: Str, b: Book, key: Str)
    requires Rep(idx, dat, b.img) && Sound(b) && key in b.at
    ensures b.at[key] in b.img.geo && b.at[key] in b.img.data
    ensures var s := b.img.geo[b.at[key]];
      s.dlen > 0 && DatAt(dat, s.datoff, s.dlen) == Some(b.img.data[b.at[key]])
  {
    hide Sound, WellLinked, Tiles, ProperKey, Pad, Tail, CString;
    var x := b.at[key];
    LiveRecord(b, key);
    var s, d := b.img.geo[x], b.img.data[x];
    Inside(idx, dat, b.img, x);
    assert DataAt(dat, s, d);
    ReadData(dat, s, d);
  }

  lemma LiveRecord(b: Book, key: Str)
    requires Sound(b) && key in b.at
    ensures b.at[key] in b.img.geo && b.at[key] in b.img.data
    ensures Contents(b)[key] == b.img.data[b.at[key]]
  {
    hide HashCell, WellLinked;
    assert b.at[key] in b.owner;
  }

  lemma ReadData(dat: Str, s: Slot, d: Str)
    requires DataAt(dat, s, d) && s.dlen > 0
    ensures DatAt(dat, s.datoff, s.dlen) == Some(d)
  {
    var cut := dat[s.datoff..s.datoff + s.dlen];
    assert cut[s.dlen - 1] == NEWLINE;
    assert dat[s.datoff..s.datoff + s.dlen - 1] == cut[..s.dlen - 1] == d;
    CStringWhole(d);
  }

  // A delete puts the lengths of its key and data on the free list.
  lemma DeletedSizes(idx: Str, dat: Str, b: Book, k: Str, i: nat)
    requires Rep(idx, dat, b.img) && Sound(b) && Standing(b, k, i)
    ensures k in Contents(b)
    ensures FreeSizes(Deleted(b, k, i)) == FreeSizes(b) + multiset{(|k|, |Contents(b)[k]| + 1)}
  {
    hide Rep, Sound, FreeSizes, Deleted, Contents;
    LiveLength(idx, dat, b, k);
    KeyLength(idx, dat, b, b.at[k]);
    KeyOfLive(b, k);
    DeletedFree(b, k, i);
  }

  lemma HasFreeSize(b: Book, klen: nat, dlen: nat)
    requires Sound(b)
    ensures HasFree(b, klen, dlen) <==> (klen, dlen) in FreeSizes(b)
  {
    hide Filed, Addressed;
    FreeHead(b);
    var free := b.lists[FREE_OFF];
    var t := Sizes(b.img.geo, free);
    if HasFree(b, klen, dlen) {
      var j: nat :| FreeFit(b, j, klen, dlen);
      assert t[j] == (klen, dlen);
    }
    if (klen, dlen) in FreeSizes(b) {
      assert (klen, dlen) in t;
      var j :| 0 <= j < |t| && t[j] == (klen, dlen);
      Reachable(b.img.ptr, b.lists, b.owner, FREE_OFF, j);
      assert FreeFit(b, j, klen, dlen);
    }
  }

  lemma FitsFound(b: Book, j: nat, key: Str, data: Str)
    requires Sound(b) && FreeFit(b, j, |key|, |data| + 1)
    ensures Fits(b, j, key, data)
  {
    Reachable(b.img.ptr, b.lists, b.owner, FREE_OFF, j);
    HeadIsCell(b.img.ptr, b.lists, b.owner, HashCell(key));
  }

  lemma AppendedAll(b: Book, x: nat, s: Slot, k: Str, d: Str)
    requires Sound(b) && k !in b.at && x !in b.img.geo && x !in b.img.ptr && !IsHead(x)
    ensures HashCell(k) in b.img.ptr && HashCell(k) in b.lists && FREE_OFF in b.lists
    ensures var b' := Appended(b, x, s, k, d);
      && Sound(b') && FREE_OFF in b'.lists && Undisturbed(b, b', k)
      && Contents(b') == (if x <= PTR_MAX then Contents(b)[k := d] else Contents(b))
      && Count(b') == (
          if x <= PTR_MAX then Count(b).(records := Count(b).records + 1, live := Count(b).live + 1)
          else Count(b).(records := Count(b).records + 1, stray := Count(b).stray + 1))
      && FreeSizes(b') == FreeSizes(b)
  {
    hide Sound, Contents, Count, Undisturbed, Appended, FreeSizes;

    FreeHead(b);
    AppendedSound(b, x, s, k, d);
    AppendedOthers(b, x, s, k, d);
    AppendedCount(b, x, s, k, d);
    AppendedFree(b, x, s, k, d);
  }

  lemma FreeHead(b: Book)
    requires Sound(b)
    ensures FREE_OFF in b.lists && FREE_OFF in b.img.ptr
  {
    HeadIsCell(b.img.ptr, b.lists, b.owner, FREE_OFF);
  }

  lemma ReusedAll(b: Book, j: nat, k: Str, d: Str)
    requires Sound(b) && k !in b.at && Fits(b, j, k, d)
    ensures var b' := Reused(b, j, k, d);
      && Sound(b') && FREE_OFF in b'.lists && Undisturbed(b, b', k)
      && Contents(b') == Contents(b)[k := d]
      && Count(b') == Count(b).(live := Count(b).live + 1, free := Count(b).free - 1)
      && FreeSizes(b') == FreeSizes(b) - multiset{(|k|, |d| + 1)}
  {
    hide Sound, Contents, Count, Undisturbed, Reused, FreeSizes;
    ReusedFree(b, j, k, d);
    ReusedSound(b, j, k, d);
    ReusedOthers(b, j, k, d);
    ReusedCount(b, j, k, d);
  }

  lemma LiveLength(idx: Str, dat: Str, b: Book, key: Str)
    requires Rep(idx, dat, b.img) && Sound(b) && key in b.at
    ensures key in Contents(b) && b.at[key] in b.img.geo
    ensures |Contents(b)[key]| + 1 == b.img.geo[b.at[key]].dlen
  {
    hide HashCell, WellLinked, Proper, ProperKey;
    LiveRecord(b, key);
    KeyLength(idx, dat, b, b.at[key]);
  }

  lemma OverwrittenImage(b: Book, key: Str, data: Str)
    requires key in b.at
    ensures Overwritten(b, key, data).img == b.img.(data := b.img.data[b.at[key] := data])
  {
  }

  // ----- the database as a map -----

  predicate BadArguments(data: Str, flag: int) {
    || (flag != DB_INSERT && flag != DB_REPLACE && flag != DB_STORE)
    || |data| + 1 < DATLEN_MIN
    || |data| + 1 > DATLEN_MAX
  }

  // What db_store returns: -1 for bad arguments or nothing to replace, 1 for a taken key.
  function StoreReply(m: map<Str, Str>, key: Str, data: Str, flag: int): int {
    if BadArguments(data, flag) then -1
    else if key !in m then if flag == DB_REPLACE then -1 else 0
    else if flag == DB_INSERT then 1 else 0
  }

  function StoreMap(m: map<Str, Str>, key: Str, data: Str, flag: int): map<Str, Str> {
    if StoreReply(m, key, data, flag) == 0 then m[key := data] else m
  }

  // In numbers: 1 inserts only, 2 replaces only, 3 does either, with data of 1 to 1023 bytes;
  // anything else is refused. What is not done leaves the map alone.
  lemma StoreReplyIs(m: map<Str, Str>, key: Str, data: Str, flag: int)
    ensures 1 <= |data| <= 1023 && flag == 1 ==> StoreReply(m, key, data, flag) == if key in m then 1 else 0
    ensures 1 <= |data| <= 1023 && flag == 2 ==> StoreReply(m, key, data, flag) == if key in m then 0 else -1
    ensures 1 <= |data| <= 1023 && flag == 3 ==> StoreReply(m, key, data, flag) == 0
    ensures data == [] || |data| > 1023 || flag < 1 || flag > 3 ==> StoreReply(m, key, data, flag) == -1
    ensures StoreMap(m, key, data, flag) == if StoreReply(m, key, data, flag) == 0 then m[key := data] else m
  {
  }

  // The store paths, in the order of the counters cnt_stor1 to cnt_stor4.
  datatype Path = Refuse | Append | Reuse | Relocate | Overwrite

  ghost function PathOf(b: Book, key: Str, data: Str, flag: int): Path
    requires Filed(b.img.key, b.img.data, b.owner, b.at)
  {
    if StoreReply(Contents(b), key, data, flag) != 0 then Refuse else PutPath(b, key, data)
  }

  ghost function PutPath(b: Book, key: Str, data: Str): (p: Path)
    requires Filed(b.img.key, b.img.data, b.owner, b.at)
    ensures !p.Refuse?
  {
    if key in b.at then
      if |Contents(b)[key]| == |data| then Overwrite else Relocate
    else if HasFree(b, |key|, |data| + 1) then Reuse
    else Append
  }

  lemma PathsOf(b: Book, key: Str, data: Str, flag: int)
    requires Filed(b.img.key, b.img.data, b.owner, b.at)
    ensures PathOf(b, key, data, flag)
         == if StoreReply(Contents(b), key, data, flag) != 0 then Refuse else PutPath(b, key, data)
  {
  }

  lemma PutPaths(b: Book, key: Str, data: Str)
    requires Filed(b.img.key, b.img.data, b.owner, b.at)
    ensures PutPath(b, key, data) ==
      if key !in Contents(b) then if HasFree(b, |key|, |data| + 1) then Reuse else Append
      else if |Contents(b)[key]| == |data| then Overwrite else Relocate
  {
  }

  predicate Grows(path: Path) {
    path.Append? || path.Relocate?
  }

  // A new record is addressable, or the chosen path does not need one.
  predicate Reaches(path: Path, end: nat) {
    Grows(path) ==> end <= PTR_MAX
  }

  // The free sizes after a store: one taken, one given back, or none.
  function FreeAfter(path: Path, m: map<Str, Str>, free: multiset<(nat, nat)>, key: Str, data: Str)
    : multiset<(nat, nat)>
  {
    if path.Reuse? then free - multiset{(|key|, |data| + 1)}
    else if path.Relocate? && key in m then free + multiset{(|key|, |m[key]| + 1)}
    else free
  }

  // What a store that is not refused asks of its arguments: a key the record format can
  // hold and, if it takes a new record, a text that fits the buffer.
  ghost predicate Storable(path: Path, datEnd: nat, key: Str, data: Str) {
    && (!path.Refuse? ==> ProperKey(key) && NUL !in data)
    && (Grows(path) ==> Proper(NewSlot(|key|, datEnd, |data| + 1)))
  }

  // One more pointer field behind i of them.
  function Joined(hash: Str, asciiptr: Str, i: nat): (r: Str)
    requires |hash| == PTR_SZ * i && |asciiptr| == PTR_SZ
    ensures r == hash + asciiptr
    ensures forall j :: 0 <= j < i ==>
      r[PTR_SZ * j..PTR_SZ * j + PTR_SZ] == hash[PTR_SZ * j..PTR_SZ * j + PTR_SZ]
    ensures r[PTR_SZ * i..PTR_SZ * i + PTR_SZ] == asciiptr
  {
    hash + asciiptr
  }

  lemma EmptyHeader(hash: Str)
    requires |hash| == 829
    requires forall j :: 0 <= j < NHASH + 1 ==> hash[PTR_SZ * j..PTR_SZ * j + PTR_SZ] == Pad(0, PTR_SZ)
    ensures forall i :: 0 <= i < 828 ==> hash[i] == if i % 6 == 5 then 48 else 32
  {
    PadWidths(0, 0);
    forall i | 0 <= i < 828
      ensures hash[i] == if i % 6 == 5 then 48 else 32
    {
      var j := i / 6;
      assert hash[PTR_SZ * j..PTR_SZ * j + PTR_SZ][i % 6] == hash[i];
      PadDigits(0, 6, 5 - i % 6);
      assert i % 6 != 5 ==> Pow10(5 - i % 6) >= 1;
    }
  }

  // ----- the counters -----

  // Appended, reused, relocated and deleted records account for those in the book.
  ghost predicate Accounts(b: Book, s1: nat, s2: nat, s3: nat, del: nat) {
    && FREE_OFF in b.lists
    && var t := Count(b);
    && t.records == s1 + s3
    && t.live + t.stray == s1 + s2 - del
    && t.free == s3 + del - s2
  }

  lemma DeleteAccounts(b: Book, b': Book, s1: nat, s2: nat, s3: nat, del: nat)
    requires FREE_OFF in b.lists && FREE_OFF in b'.lists
    requires Count(b') == Count(b).(live := Count(b).live - 1, free := Count(b).free + 1)
    ensures Accounts(b, s1, s2, s3, del) ==> Accounts(b', s1, s2, s3, del + 1)
  {
    hide Count;
  }

  // Each path has its counter.
  function Counted(path: Path, s1: nat, s2: nat, s3: nat, s4: nat): (nat, nat, nat, nat) {
    match path
    case Refuse => (s1, s2, s3, s4)
    case Append => (s1 + 1, s2, s3, s4)
    case Reuse => (s1, s2 + 1, s3, s4)
    case Relocate => (s1, s2, s3 + 1, s4)
    case Overwrite => (s1, s2, s3, s4 + 1)
  }

  // What a store does to the records: one more or one taken back, live or beyond reach.
  function TallyAfter(path: Path, end: nat, t: Tally): Tally {
    match path
    case Refuse => t
    case Overwrite => t
    case Reuse => t.(live := t.live + 1, free := t.free - 1)
    case Append => NewRecord(end, t)
    case Relocate => NewRecord(end, t.(live := t.live - 1, free := t.free + 1))
  }

  function NewRecord(end: nat, t: Tally): Tally {
    if end <= PTR_MAX then t.(records := t.records + 1, live := t.live + 1)
    else t.(records := t.records + 1, stray := t.stray + 1)
  }

  lemma RefuseLeaves(end: nat, t: Tally, m: map<Str, Str>, free: multiset<(nat, nat)>, key: Str, data: Str)
    ensures TallyAfter(Refuse, end, t) == t && FreeAfter(Refuse, m, free, key, data) == free
  {
  }

  lemma StoreAccounts(b: Book, b': Book, path: Path, end: nat, s1: nat, s2: nat, s3: nat, s4: nat, del: nat)
    requires FREE_OFF in b.lists && FREE_OFF in b'.lists && Count(b') == TallyAfter(path, end, Count(b))
    ensures var s := Counted(path, s1, s2, s3, s4);
      Accounts(b, s1, s2, s3, del) ==> Accounts(b', s.0, s.1, s.2, del)
  {
    hide Count;
  }

  // ----- reading in file order -----

  // The offsets of the records from `at` on whose key is not blank.
  ghost function Walk(g: Image, at: nat, end: nat): seq<nat>
    decreases if at < end then end - at else 0
  {
    if at < end && at in g.geo && at in g.key then
      (if Blank(g.key[at]) then [] else [at]) + Walk(g, at + Size(g.geo[at]), end)
    else []
  }

  // What reading at a record boundary finds.
  lemma WalkStep(idx: Str, dat: Str, g: Image, at: nat)
    requires Rep(idx, dat, g) && (at in g.geo || at == |idx|)
    ensures at == |idx| ==> Walk(g, at, |idx|) == [] && ParseIdx(idx, at).None?
    ensures at != |idx| ==>
      && at < |idx| && at in g.key && at in g.data && at in g.ptr && at > 0
      && var s := g.geo[at];
      && ParseIdx(idx, at) == Some(Entry(g.ptr[at], s.len, g.key[at], s.datoff, s.dlen))
      && s.dlen > 0 && DatAt(dat, s.datoff, s.dlen) == Some(g.data[at])
      && (at + Size(s) in g.geo || at + Size(s) == |idx|)
      && Walk(g, at, |idx|) ==
        (if Blank(g.key[at]) then [] else [at]) + Walk(g, at + Size(s), |idx|)
  {
    hide Rep, DatAt, ParseIdx, DataAt;
    if at != |idx| {
      ReadRecord(idx, dat, g, at);
      RecordPlace(idx, dat, g, at);
      ReadData(dat, g.geo[at], g.data[at]);
    } else {
      NothingAtEnd(idx, dat, g);
    }
  }

  lemma RecordPlace(idx: Str, dat: Str, g: Image, at: nat)
    requires Rep(idx, dat, g) && at in g.geo
    ensures 0 < at < |idx| && at in g.key && at in g.data && at in g.ptr
    ensures g.geo[at].dlen > 0 && DataAt(dat, g.geo[at], g.data[at])
    ensures at + Size(g.geo[at]) in g.geo || at + Size(g.geo[at]) == |idx|
  {
    hide DataAt, BodyAt, CellAt;
    assert SlotOk(g.geo, at, |idx|, |dat|);
    assert Follows(g.geo, at, |idx|, |dat|);
  }

  lemma RecordsAhead(idx: Str, dat: Str, g: Image)
    requires Rep(idx, dat, g)
    ensures HEADER in g.geo || HEADER == |idx|
    ensures forall x :: x in g.geo ==> HEADER <= x
  {
    hide CellAt, BodyAt, DataAt;
  }

  lemma NothingAtEnd(idx: Str, dat: Str, g: Image)
    requires Rep(idx, dat, g)
    ensures |idx| !in g.geo && ParseIdx(idx, |idx|).None?
  {
    if |idx| in g.geo {
      RecordPlace(idx, dat, g, |idx|);
    }
  }

  // Every record that can be read lies inside the file.
  lemma ParsedInside(idx: Str, at: nat)
    ensures ParseIdx(idx, at).Some? ==>
      var e := ParseIdx(idx, at).value;
      at < at + PTR_SZ + IDXLEN_SZ + e.len <= |idx| && e.datoff >= 0 && e.datlen > 0
  {
    hide Atol, IndexOf, CString;
  }

  class Db {
    var idx: Str        // contents of the index file
    var dat: Str        // contents of the data file
    var idxpos: nat     // position of the index file descriptor

    var idxbuf: Str     // the C string at the start of the buffer
    var datbuf: Str
    var idxoff: int
    var idxlen: int
    var datoff: int
    var datlen: int
    var ptrval: int
    var ptroff: int
    var chainoff: int

    var cnt_delok: nat
    var cnt_delerr: nat
    var cnt_fetchlok: nat
    var cnt_fetcherr: nat
    var cnt_nextrec: nat
    var cnt_stor1: nat
    var cnt_stor2: nat
    var cnt_stor3: nat
    var cnt_stor4: nat
    var cnt_storerr: nat

    ghost var book: Book

    ghost predicate Valid()
      reads this
    {
      Rep(idx, dat, book.img) && Sound(book)
    }

    // The map the database stands for.
    ghost function Stored(): map<Str, Str>
      requires Valid()
      reads this
    {
      Contents(book)
    }

    // The counters account for every record, over any run since the files were created.
    ghost predicate Balanced()
      reads this`book, this`cnt_stor1, this`cnt_stor2, this`cnt_stor3, this`cnt_delok
    {
      Accounts(book, cnt_stor1, cnt_stor2, cnt_stor3, cnt_delok)
    }

    // db_open with O_CREAT and O_TRUNC.
    constructor Create()
      ensures Valid() && Balanced()
      ensures Contents(book) == map[] && FreeSizes(book) == multiset{}
      ensures |idx| == idxpos == HEADER && dat == [] && ptrval == 0
      ensures |idx| == 829 && idx[828] == 10
      ensures forall i :: 0 <= i < 828 ==> idx[i] == if i % 6 == 5 then 48 else 32
      ensures cnt_stor1 == cnt_stor2 == cnt_stor3 == cnt_stor4 == cnt_delok == 0
    {
      var asciiptr := Pad(0, PTR_SZ);
      PadWidths(0, 0);
      var hash := [];
      var i := 0;
      while i < NHASH + 1
        invariant i <= NHASH + 1 && |hash| == PTR_SZ * i
        invariant forall j :: 0 <= j < i ==> hash[PTR_SZ * j..PTR_SZ * j + PTR_SZ] == asciiptr
      {
        hash := Joined(hash, asciiptr, i);
        i := i + 1;
      }
      ghost var heads := hash;
      hash := hash + [NEWLINE];
      assert forall j :: 0 <= j < NHASH + 1 ==>
        hash[PTR_SZ * j..PTR_SZ * j + PTR_SZ] == heads[PTR_SZ * j..PTR_SZ * j + PTR_SZ];
      EmptyHeader(hash);
      EmptyRep(hash);
      EmptySound();
      idx, dat := hash, [];
      idxpos, idxoff := HEADER, HEADER;
      idxbuf, datbuf := [], [];
      idxlen, datoff, datlen, ptrval, ptroff, chainoff := 0, 0, 0, 0, 0, 0;
      cnt_delok, cnt_delerr, cnt_fetchlok, cnt_fetcherr, cnt_nextrec := 0, 0, 0, 0, 0;
      cnt_stor1, cnt_stor2, cnt_stor3, cnt_stor4, cnt_storerr := 0, 0, 0, 0, 0;
      book := EmptyBook();
    }

    // ----- reading -----

    method ReadPtr(offset: nat) returns (v: int)
      modifies this`idxpos
      ensures v == PtrAt(idx, offset)
      ensures offset >= |idx| ==> v == 0
      ensures offset < |idx| < offset + 6 ==> v == -1
      ensures offset + 6 <= |idx| ==> v == Atol(idx[offset..offset + 6])
      ensures offset + PTR_SZ <= |idx| ==> idxpos == offset + PTR_SZ
    {
      idxpos := offset;
      if offset >= |idx| {
        return 0;
      }
      if offset + PTR_SZ > |idx| {
        idxpos := |idx|;
        return -1;
      }
      idxpos := offset + PTR_SZ;
      v := Atol(idx[offset..offset + PTR_SZ]);
    }

    // Cuts the text of a record, already in idxbuf, at its two separators.
    method SplitText() returns (ok: bool)
      modifies this`idxbuf, this`datoff, this`datlen
      ensures forall ptr, len :: ok <==> ParseBody(ptr, len, old(idxbuf)).Some?
      ensures ok ==> datoff >= 0 && datlen > 0
      ensures ok ==> forall ptr, len ::
        ParseBody(ptr, len, old(idxbuf)) == Some(Entry(ptr, len, idxbuf, datoff, datlen))
    {
      hide Atol, IndexOf;
      var first := IndexOf(idxbuf, SEP);
      if first == |idxbuf| {
        return false;
      }
      var rest := idxbuf[first + 1..];
      idxbuf := idxbuf[..first];
      var second := IndexOf(rest, SEP);
      if second == |rest| {
        return false;
      }
      if SEP in rest[second + 1..] {
        return false;
      }
      datoff := Atol(rest[..second]);
      if datoff < 0 {
        return false;
      }
      datlen := Atol(rest[second + 1..]);
      return 0 < datlen <= DATLEN_MAX;
    }

    // Offset 0 means: from the current position.
    method ReadIdx(offset: int) returns (next: int)
      modifies this`idxoff, this`idxpos, this`idxlen, this`idxbuf, this`datoff, this`datlen, this`ptrval
      ensures var at := if offset == 0 then old(idxpos) else offset;
        && (at < 0 || ParseIdx(idx, at).None? ==> next == -1)
        && (at >= |idx| ==> idxpos == at)
      ensures var at := if offset == 0 then old(idxpos) else offset;
        at >= 0 && ParseIdx(idx, at).Some? ==>
          var e := ParseIdx(idx, at).value;
          && next == ptrval == e.ptr && idxoff == at && idxlen == e.len
          && idxbuf == e.key && datoff == e.datoff && datlen == e.datlen
          && idxpos == at + PTR_SZ + IDXLEN_SZ + e.len
    {
      hide Atol, CString, IndexOf, ParseBody;
      if offset < 0 {
        idxoff := -1;
        return -1;
      }
      idxoff := if offset == 0 then idxpos else offset;
      idxpos := idxoff;
      if idxpos + PTR_SZ + IDXLEN_SZ > |idx| {
        if idxpos < |idx| {
          idxpos := |idx|;
        }
        return -1;
      }
      var asciiptr := idx[idxpos..idxpos + PTR_SZ];
      var asciilen := idx[idxpos + PTR_SZ..idxpos + PTR_SZ + IDXLEN_SZ];
      idxpos := idxpos + PTR_SZ + IDXLEN_SZ;
      idxlen := Atol(asciilen);
      if idxlen < IDXLEN_MIN || idxlen > IDXLEN_MAX {
        return -1;
      }
      if idxpos + idxlen > |idx| {
        return -1;
      }
      var text := idx[idxpos..idxpos + idxlen];
      idxpos := idxpos + idxlen;
      if text[idxlen - 1] != NEWLINE {
        return -1;
      }
      idxbuf := CString(text[..idxlen - 1]);
      var ok := SplitText();
      if !ok {
        return -1;
      }
      ptrval := Atol(asciiptr);
      return ptrval;
    }

    method ReadDat() returns (r: Option<Str>)
      requires datoff >= 0 && datlen > 0
      modifies this`datbuf
      ensures r == DatAt(dat, datoff, datlen)
      ensures r.Some? ==> datbuf == r.value
    {
      if datoff + datlen > |dat| {
        return None;
      }
      datbuf := dat[datoff..datoff + datlen];
      assert datbuf[..datlen - 1] == dat[datoff..datoff + datlen - 1];
      if datbuf[datlen - 1] != NEWLINE {
        return None;
      }
      datbuf := CString(datbuf[..datlen - 1]);
      return Some(datbuf);
    }

    // ----- writing -----

    method WriteDat(data: Str, offset: nat, whence: Whence)
      requires whence.Set? ==> offset <= |dat|
      modifies this`dat, this`datoff, this`datlen
      ensures datoff == if whence.Set? then offset else |old(dat)|
      ensures datlen == |data| + 1
      ensures 0 <= datoff <= |old(dat)|
      ensures dat == WriteAt(old(dat), datoff, data + [NEWLINE])
    {
      datoff := if whence.Set? then offset else |dat|;
      datlen := |data| + 1;
      dat := WriteAt(dat, datoff, data + [NEWLINE]);
    }

    method WriteIdx(key: Str, offset: nat, whence: Whence, ptr: int)
      requires whence.Set? ==> offset <= |idx|
      requires datoff >= 0 && datlen >= 0
      modifies this`idx, this`idxbuf, this`idxoff, this`idxpos, this`ptrval
      ensures var s := NewSlot(|key|, datoff, datlen);
        if 0 <= ptr <= PTR_MAX && IDXLEN_MIN <= s.len <= IDXLEN_MAX then
          && idxoff == (if whence.Set? then offset else |old(idx)|)
          && idx == WriteAt(old(idx), idxoff, Encode(ptr, key, s))
        else
          idxoff == old(idxoff) && idx == old(idx)
    {
      ptrval := ptr;
      if ptrval < 0 || ptrval > PTR_MAX {
        return;
      }
      idxbuf := key + Tail(datoff, datlen);
      var len := |idxbuf|;
      if len < IDXLEN_MIN || len > IDXLEN_MAX {
        return;
      }
      var asciiptrlen := Pad(ptr, PTR_SZ) + Pad(len, IDXLEN_SZ);
      idxoff := if whence.Set? then offset else |idx|;
      idx := WriteAt(idx, idxoff, asciiptrlen + idxbuf);
      idxpos := idxoff + |asciiptrlen| + len;
    }

    method WritePtr(offset: nat, ptr: int)
      requires offset <= |idx|
      modifies this`idx, this`idxpos
      ensures idx == if 0 <= ptr <= PTR_MAX then WriteAt(old(idx), offset, Pad(ptr, PTR_SZ)) else old(idx)
    {
      if ptr < 0 || PTR_MAX < ptr {
        return;
      }
      idx := WriteAt(idx, offset, Pad(ptr, PTR_SZ));
      idxpos := offset + PTR_SZ;
    }

    // ----- looking up -----

    method Hash(key: Str) returns (h: nat)
      ensures h == HashSum(key) % NHASH
      ensures h == Weighted(key, 0) % 0x1_0000_0000_0000_0000 % 137
    {
      HashSumInClosedForm(key);
      var hval: nat := 0;
      for i := 0 to |key|
        invariant hval == HashSum(key[..i])
      {
        assert key[..i + 1][..i] == key[..i];
        hval := (hval + SignedChar(key[i]) * (i + 1)) % WORD;
      }
      assert key[..|key|] == key;
      h := hval % NHASH;
    }

    // What a successful search leaves in the handle.
    ghost predicate Located(key: Str, i: nat)
      reads this
    {
      && Standing(book, key, i)
      && idxoff == book.at[key] && idxbuf == key
      && chainoff == HashCell(key)
      && ptroff == Pred(chainoff, book.lists[chainoff], i)
      && ptrval == book.img.ptr[idxoff]
      && idxoff in book.img.geo
      && datoff == book.img.geo[idxoff].datoff && datlen == book.img.geo[idxoff].dlen
    }

    // The descriptor stands right behind the record at x.
    ghost predicate Behind(x: nat)
      reads this`idxpos, this`book
    {
      x in book.img.geo && idxpos == x + Size(book.img.geo[x])
    }

    // Where the search for a key that is not there leaves the descriptor: behind the last
    // record of its chain, or in the header if the chain is empty.
    ghost predicate Exhausted(key: Str)
      reads this`idxpos, this`book
    {
      && HashCell(key) in book.lists
      && var s := book.lists[HashCell(key)];
      if s == [] then idxpos == HashCell(key) + PTR_SZ else Behind(s[|s| - 1])
    }

    // -3 exactly when the key is not in the database.
    method FindAndLock(key: Str) returns (rc: int, ghost i: nat)
      requires Valid()
      modifies this`chainoff, this`ptroff
      modifies this`idxoff, this`idxpos, this`idxlen, this`idxbuf, this`datoff, this`datlen, this`ptrval
      ensures rc == if key in book.at then 0 else -3
      ensures rc == 0 ==> Standing(book, key, i) && Located(key, i)
      ensures chainoff == HashCell(key)
      ensures if rc == 0 then Behind(idxoff) else Exhausted(key)
    {
      hide Rep, Sound, ParseIdx, HashSum, HashCell;
      var h := Hash(key);
      chainoff := h * PTR_SZ + HASH_OFF;
      CellOfHash(key, h);
      ptroff := chainoff;
      i := 0;
      ghost var head: nat := chainoff;
      ListStart(idx, dat, book, head);
      ghost var chain := book.lists[head];
      var offset := ReadPtr(ptroff);
      while offset != 0
        invariant i <= |chain|
        invariant offset == Nth(chain, i)
        invariant ptroff == Pred(head, chain, i)
        invariant chainoff == head == HashCell(key)
        invariant if i == 0 then idxpos == head + PTR_SZ else Behind(chain[i - 1])
        invariant forall j :: 0 <= j < i ==> chain[j] in book.img.key && book.img.key[chain[j]] != key
        decreases |chain| - i
      {
        ListEnd(book, chainoff, i);
        ListStep(idx, dat, book, chainoff, i);
        var nextoffset := ReadIdx(offset);
        if idxbuf == key {
          assert book.img.key[offset] == key;
          break;
        }
        ptroff := offset;
        offset := nextoffset;
        i := i + 1;
      }
      if offset == 0 {
        ListEnd(book, chainoff, i);
        NotOnChain(book, key);
        return -3, i;
      }
      OnChainStanding(idx, dat, book, key, i);
      return 0, i;
    }

    // The record at place j of the free list has been taken off it, and the handle is at it.
    ghost predicate Unlinked(j: nat)
      reads this`idx, this`dat, this`book, this`idxoff, this`datoff
    {
      && FREE_OFF in book.lists && j < |book.lists[FREE_OFF]|
      && idxoff == book.lists[FREE_OFF][j] && idxoff in book.img.ptr
      && idxoff in book.img.geo && datoff == book.img.geo[idxoff].datoff
      && Rep(idx, dat, book.img.(ptr := UnlinkPtr(book.img.ptr, book.lists, FREE_OFF, j)))
    }

    // Takes the first fitting record off the free list; the caller fills it.
    method FindFree(keylen: nat, datalen: nat) returns (rc: int, ghost j: nat)
      requires Valid()
      modifies this`idx
      modifies this`idxoff, this`idxpos, this`idxlen, this`idxbuf, this`datoff, this`datlen, this`ptrval
      ensures rc == 0 || rc == -1
      ensures rc == 0 <==> HasFree(book, keylen, datalen)
      ensures rc == -1 ==> idx == old(idx)
      ensures |idx| == |old(idx)|
      ensures rc == 0 ==>
        && FreeFit(book, j, keylen, datalen)
        && (forall i :: 0 <= i < j ==> !FreeFit(book, i, keylen, datalen))
        && Unlinked(j) && datlen == datalen
    {
      hide Rep, Sound, ParseIdx, UnlinkPtr;
      ListStart(idx, dat, book, FREE_OFF);
      ghost var free := book.lists[FREE_OFF];
      j := 0;
      var saveoffset := FREE_OFF;
      var offset := ReadPtr(saveoffset);
      while offset != 0
        invariant idx == old(idx) && j <= |free|
        invariant offset == Nth(free, j)
        invariant saveoffset == Pred(FREE_OFF, free, j)
        invariant forall i :: 0 <= i < j ==> !FreeFit(book, i, keylen, datalen)
        decreases |free| - j
      {
        ListEnd(book, FREE_OFF, j);
        ListStep(idx, dat, book, FREE_OFF, j);
        KeyLength(idx, dat, book, free[j]);
        var nextoffset := ReadIdx(offset);
        if keylen == |idxbuf| && datalen == datlen {
          break;
        }
        saveoffset := offset;
        offset := nextoffset;
        j := j + 1;
      }
      ListEnd(book, FREE_OFF, j);
      if offset == 0 {
        return -1, j;
      }
      assert FreeFit(book, j, keylen, datalen);
      UnlinkCell(idx, dat, book, FREE_OFF, j);
      WritePtr(saveoffset, ptrval);
      return 0, j;
    }

    // Fills both buffers with spaces, up to the lengths they have.
    method BlankBuffers()
      requires datlen > 0
      modifies this`datbuf, this`idxbuf
      ensures datbuf == Spaces(datlen - 1)
      ensures idxbuf == Spaces(|old(idxbuf)|)
    {
      datbuf := [];
      var i := 0;
      while i < datlen - 1
        modifies this`datbuf
        invariant 0 <= i <= datlen - 1 && datbuf == Spaces(i)
      {
        datbuf := datbuf + [SPACE];
        i := i + 1;
      }
      i := 0;
      while i < |idxbuf|
        modifies this`idxbuf
        invariant i <= |idxbuf| == |old(idxbuf)|
        invariant forall j :: 0 <= j < i ==> idxbuf[j] == SPACE
      {
        idxbuf := idxbuf[i := SPACE];
        i := i + 1;
      }
      BlankIsSpaces(idxbuf);
    }

    // Blanks the record the handle has just located and moves it to the free list.
    method DoDelete(ghost key: Str, ghost n: nat)
      requires Valid() && Located(key, n)
      modifies this`idx, this`dat, this`idxpos, this`idxbuf, this`datbuf, this`book
      modifies this`idxoff, this`datoff, this`datlen, this`ptrval
      ensures Valid()
      ensures book == Deleted(old(book), key, n)
      ensures |idx| == |old(idx)| && |dat| == |old(dat)|
    {
      hide Rep, Sound, HashCell, WriteAt, Encode, Pad, Deleted, Tail;
      DeleteWrites(idx, dat, book, key, n);
      DeletedSound(book, key, n);
      ListStart(idx, dat, book, FREE_OFF);
      BlankBuffers();
      WriteDat(datbuf, datoff, Set);
      var freeptr := ReadPtr(FREE_OFF);
      var saveptr := ptrval;
      WriteIdx(idxbuf, idxoff, Set, freeptr);
      WritePtr(FREE_OFF, idxoff);
      WritePtr(ptroff, saveptr);
      book := Deleted(book, key, n);
    }

    // apue_db.c:650-652 and 673-675: a new record at the end of both files.
    method AppendEntry(key: Str, data: Str, ptr: int)
      requires Valid() && key !in book.at
      requires ProperKey(key) && NUL !in data && Proper(NewSlot(|key|, |dat|, |data| + 1))
      requires chainoff == HashCell(key) && chainoff in book.img.ptr && ptr == book.img.ptr[chainoff]
      modifies this`idx, this`dat, this`idxpos, this`idxbuf, this`book
      modifies this`idxoff, this`datoff, this`datlen, this`ptrval
      ensures Valid()
      ensures HashCell(key) in old(book.img.ptr) && HashCell(key) in old(book.lists)
      ensures book == Appended(old(book), |old(idx)|, NewSlot(|key|, |old(dat)|, |data| + 1), key, data)
      ensures |idx| == |old(idx)| + Size(NewSlot(|key|, |old(dat)|, |data| + 1))
      ensures |dat| == |old(dat)| + |data| + 1
      ensures HasRecord(book, |old(idx)|, key, data) && Undisturbed(old(book), book, key)
      ensures Contents(book) == if |old(idx)| <= PTR_MAX then old(Contents(book))[key := data]
                                else old(Contents(book)) - {key}
      ensures FREE_OFF in old(book.lists) && FREE_OFF in book.lists && FreeSizes(book) == old(FreeSizes(book))
      ensures Count(book) == NewRecord(|old(idx)|, old(Count(book)))
    {
      hide Rep, Sound, HashCell, WriteAt, Encode, Pad, Appended, Tail, HasRecord;
      hide Contents, FreeSizes, Count, Undisturbed;
      ghost var s := NewSlot(|key|, |dat|, |data| + 1);
      AppendWrites(idx, dat, book, key, data);
      AppendedAll(book, |idx|, s, key, data);
      KeysOf(book);
      AppendedRecord(book, |idx|, s, key, data);
      book := Appended(book, |idx|, s, key, data);
      WriteDat(data, 0, End);
      WriteIdx(key, 0, End, ptr);
      WritePtr(chainoff, idxoff);
    }

    // apue_db.c:656-658: the record that FindFree has taken, filled again.
    method ReuseEntry(key: Str, data: Str, ptr: int, ghost j: nat)
      requires Sound(book) && key !in book.at && ProperKey(key) && NUL !in data
      requires Fits(book, j, key, data) && Unlinked(j)
      requires chainoff == HashCell(key) && ptr == book.img.ptr[chainoff] <= PTR_MAX
      modifies this`idx, this`dat, this`idxpos, this`idxbuf, this`book
      modifies this`idxoff, this`datoff, this`datlen, this`ptrval
      ensures Valid()
      ensures book == Reused(old(book), j, key, data)
      ensures |idx| == |old(idx)| && |dat| == |old(dat)|
      ensures Undisturbed(old(book), book, key) && Contents(book) == old(Contents(book))[key := data]
      ensures FREE_OFF in old(book.lists) && FREE_OFF in book.lists
      ensures FreeSizes(book) == old(FreeSizes(book)) - multiset{(|key|, |data| + 1)}
      ensures Count(book)
           == old(Count(book)).(live := old(Count(book)).live + 1, free := old(Count(book)).free - 1)
    {
      hide Rep, Sound, HashCell, WriteAt, Encode, Pad, Reused, Tail, UnlinkPtr;
      hide Contents, FreeSizes, Count, Undisturbed;
      ReuseWrites(idx, dat, book, j, key, data);
      ReusedAll(book, j, key, data);
      book := Reused(book, j, key, data);
      WriteDat(data, datoff, Set);
      WriteIdx(key, idxoff, Set, ptr);
      WritePtr(chainoff, idxoff);
    }

    // ----- the interface -----

    method Fetch(key: Str) returns (r: Option<Str>)
      requires Valid()
      modifies this`chainoff, this`ptroff, this`datbuf, this`cnt_fetchlok, this`cnt_fetcherr
      modifies this`idxoff, this`idxpos, this`idxlen, this`idxbuf, this`datoff, this`datlen, this`ptrval
      ensures Valid()
      ensures r == if key in Contents(book) then Some(Contents(book)[key]) else None
      ensures cnt_fetchlok == old(cnt_fetchlok) + if r.Some? then 1 else 0
      ensures cnt_fetcherr == old(cnt_fetcherr) + if r.Some? then 0 else 1
      ensures if r.Some? then key in book.at && Behind(book.at[key]) else Exhausted(key)
    {
      hide Rep, Sound, Reading, HashCell, DatAt;
      KeysOf(book);
      var rc, i := FindAndLock(key);
      if rc < 0 {
        r := None;
        cnt_fetcherr := cnt_fetcherr + 1;
      } else {
        ReadLive(idx, dat, book, key);
        LiveRecord(book, key);
        r := ReadDat();
        cnt_fetchlok := cnt_fetchlok + 1;
      }
    }

    method Delete(key: Str) returns (rc: int)
      requires Valid()
      modifies this`idx, this`dat, this`idxpos, this`idxbuf, this`datbuf, this`book
      modifies this`idxoff, this`idxlen, this`datoff, this`datlen, this`ptrval
      modifies this`chainoff, this`ptroff, this`cnt_delok, this`cnt_delerr
      ensures Valid()
      ensures rc == if key in old(Contents(book)) then 0 else -1
      ensures Contents(book) == old(Contents(book)) - {key}
      ensures Undisturbed(old(book), book, key)
      ensures |idx| == |old(idx)| && |dat| == |old(dat)|
      ensures cnt_delok == old(cnt_delok) + if rc == 0 then 1 else 0
      ensures cnt_delerr == old(cnt_delerr) + if rc == 0 then 0 else 1
      ensures FreeSizes(book) == if key in old(Contents(book))
        then old(FreeSizes(book)) + multiset{(|key|, |old(Contents(book))[key]| + 1)}
        else old(FreeSizes(book))
      ensures old(Balanced()) ==> Balanced()
    {
      hide Rep, Sound, Undisturbed, HashCell, Deleted, Reading, Located, Standing, Count, FreeSizes;
      hide Accounts;
      KeysOf(book);
      FreeHead(book);
      var rc', i := FindAndLock(key);
      if rc' == 0 {
        DeletedSound(book, key, i);
        DeletedOthers(book, key, i);
        DeletedSizes(idx, dat, book, key, i);
        DoDelete(key, i);
        DeleteAccounts(old(book), book, cnt_stor1, cnt_stor2, cnt_stor3, cnt_delok);
        cnt_delok := cnt_delok + 1;
        rc := 0;
      } else {
        UndisturbedSelf(book, key);
        rc := -1;
        cnt_delerr := cnt_delerr + 1;
      }
    }

    // apue_db.c:646-660: the key is new.
    method StoreNew(key: Str, data: Str)
      requires Valid() && key !in book.at && chainoff == HashCell(key)
      requires ProperKey(key) && NUL !in data
      requires !HasFree(book, |key|, |data| + 1) ==> Proper(NewSlot(|key|, |dat|, |data| + 1))
      modifies this`idx, this`dat, this`idxpos, this`idxbuf, this`book
      modifies this`idxoff, this`idxlen, this`datoff, this`datlen, this`ptrval
      modifies this`cnt_stor1, this`cnt_stor2
      ensures Valid()
      ensures var reuse := HasFree(old(book), |key|, |data| + 1);
        && (if reuse then cnt_stor1 == old(cnt_stor1) && cnt_stor2 == old(cnt_stor2) + 1
            else cnt_stor1 == old(cnt_stor1) + 1 && cnt_stor2 == old(cnt_stor2))
        && |idx| == |old(idx)| + (if reuse then 0 else Size(NewSlot(|key|, |old(dat)|, |data| + 1)))
        && |dat| == |old(dat)| + (if reuse then 0 else |data| + 1)
        && Contents(book) == (if reuse || |old(idx)| <= PTR_MAX then old(Contents(book))[key := data]
                              else old(Contents(book)) - {key})
        && FreeSizes(book) == FreeAfter(if reuse then Reuse else Append, old(Contents(book)),
                                        old(FreeSizes(book)), key, data)
        && (!reuse ==> HasRecord(book, |old(idx)|, key, data))
      ensures Undisturbed(old(book), book, key)
      ensures FREE_OFF in old(book.lists) && FREE_OFF in book.lists
      ensures Count(book) == TallyAfter(if HasFree(old(book), |key|, |data| + 1) then Reuse else Append,
                                        |old(idx)|, old(Count(book)))
    {
      hide Rep, Sound, Undisturbed, HashCell, Reused, Appended, Reading, Count, UnlinkPtr;
      hide FreeFit, ParseIdx, Pad, Tail, FreeSizes, HasRecord, Contents, Unlinked, Fits;
      ListStart(idx, dat, book, chainoff);
      var ptr := ReadPtr(chainoff);
      var rc, j := FindFree(|key|, |data| + 1);
      if rc < 0 {
        AppendEntry(key, data, ptr);
        cnt_stor1 := cnt_stor1 + 1;
      } else {
        FitsFound(book, j, key, data);
        ReuseEntry(key, data, ptr, j);
        cnt_stor2 := cnt_stor2 + 1;
      }
    }

    // apue_db.c:671-676: the key is there with data of another length.
    method Relocate(key: Str, data: Str, ghost i: nat)
      requires Valid() && Standing(book, key, i) && Located(key, i)
      requires key in Contents(book)
      requires ProperKey(key) && NUL !in data && Proper(NewSlot(|key|, |dat|, |data| + 1))
      modifies this`idx, this`dat, this`idxpos, this`idxbuf, this`datbuf, this`book
      modifies this`idxoff, this`datoff, this`datlen, this`ptrval
      modifies this`cnt_stor3
      ensures Valid()
      ensures cnt_stor3 == old(cnt_stor3) + 1
      ensures |idx| == |old(idx)| + Size(NewSlot(|key|, |old(dat)|, |data| + 1))
      ensures |dat| == |old(dat)| + |data| + 1
      ensures Contents(book) == if |old(idx)| <= PTR_MAX then old(Contents(book))[key := data]
                                else old(Contents(book)) - {key}
      ensures FreeSizes(book)
           == FreeAfter(Path.Relocate, old(Contents(book)), old(FreeSizes(book)), key, data)
      ensures HasRecord(book, |old(idx)|, key, data)
      ensures Undisturbed(old(book), book, key)
      ensures FREE_OFF in old(book.lists) && FREE_OFF in book.lists
      ensures Count(book) == TallyAfter(Path.Relocate, |old(idx)|, old(Count(book)))
    {
      hide Rep, Sound, Undisturbed, HashCell, Deleted, Appended, Reading, Count, Pad, Tail, WriteAt, FreeSizes;
      hide HasRecord, Contents;
      FreeHead(book);
      DeletedSound(book, key, i);
      DeletedOthers(book, key, i);
      DeletedSizes(idx, dat, book, key, i);
      DoDelete(key, i);
      ghost var b1 := book;
      KeysOf(book);
      ListStart(idx, dat, book, chainoff);
      var ptr := ReadPtr(chainoff);
      AppendEntry(key, data, ptr);
      UndisturbedTwice(old(book), b1, book, key);
      cnt_stor3 := cnt_stor3 + 1;
    }

    // apue_db.c:679-680: the key is there with data of the same length.
    method Overwrite(key: Str, data: Str, ghost i: nat)
      requires Valid() && Standing(book, key, i) && Located(key, i)
      requires NUL !in data && |data| + 1 == datlen
      modifies this`dat, this`book, this`datoff, this`datlen, this`cnt_stor4
      ensures Valid()
      ensures cnt_stor4 == old(cnt_stor4) + 1
      ensures |dat| == |old(dat)|
      ensures Contents(book) == old(Contents(book))[key := data]
      ensures FreeSizes(book)
           == FreeAfter(Path.Overwrite, old(Contents(book)), old(FreeSizes(book)), key, data)
      ensures Undisturbed(old(book), book, key)
      ensures FREE_OFF in old(book.lists) && FREE_OFF in book.lists
      ensures Count(book) == TallyAfter(Path.Overwrite, |old(idx)|, old(Count(book)))
    {
      hide Rep, Sound, Undisturbed, HashCell, Overwritten, Reading, Count, Pad, Tail, WriteAt, FreeSizes;
      FreeHead(book);
      RewriteData(idx, dat, book.img, book.at[key], data);
      OverwrittenSound(book, key, data);
      OverwrittenOthers(book, key, data);
      OverwrittenFree(book, key, data);
      OverwrittenImage(book, key, data);
      WriteDat(data, datoff, Set);
      book := Overwritten(book, key, data);
      cnt_stor4 := cnt_stor4 + 1;
    }

    // apue_db.c:646-681: the key has been looked up and the store is not refused.
    method Put(key: Str, data: Str, found: bool, ghost i: nat)
      requires Valid() && found == (key in book.at) && chainoff == HashCell(key)
      requires found ==> Standing(book, key, i) && Located(key, i)
      requires Storable(PutPath(book, key, data), |dat|, key, data)
      modifies this`idx, this`dat, this`idxpos, this`idxbuf, this`datbuf, this`book
      modifies this`idxoff, this`idxlen, this`datoff, this`datlen, this`ptrval
      modifies this`cnt_stor1, this`cnt_stor2, this`cnt_stor3, this`cnt_stor4
      ensures Valid() && FREE_OFF in old(book.lists)
      ensures Placed(PutPath(old(book), key, data), |old(idx)|, |old(dat)|,
                     old(Contents(book)), old(FreeSizes(book)), old(Count(book)), key, data,
                     old(cnt_stor1), old(cnt_stor2), old(cnt_stor3), old(cnt_stor4))
      ensures Undisturbed(old(book), book, key)
    {
      hide Rep, Sound, Undisturbed, HashCell, Reading, Count, HasFree, Standing, Tail, Proper;
      hide Contents, NewSlot, Size, FreeSizes, HasRecord, PutPath, TallyAfter, FreeAfter;
      FreeHead(book);
      KeysOf(book);
      PutPaths(book, key, data);
      if !found {
        StoreNew(key, data);
      } else {
        LiveLength(idx, dat, book, key);
        if |data| + 1 != datlen {
          Relocate(key, data, i);
        } else {
          Overwrite(key, data, i);
        }
      }
      KeysOf(book);
    }

    // The files, the map and the counters after the chosen path, from what they were before.
    ghost predicate Placed(path: Path, idxEnd: nat, datEnd: nat, m: map<Str, Str>, free: multiset<(nat, nat)>,
                           t: Tally, key: Str, data: Str, s1: nat, s2: nat, s3: nat, s4: nat)
      reads this
    {
      && Filed(book.img.key, book.img.data, book.owner, book.at)
      && Contents(book) == (if path.Refuse? then m
                            else if Reaches(path, idxEnd) then m[key := data]
                            else m - {key})
      && |idx| == idxEnd + (if Grows(path) then Size(NewSlot(|key|, datEnd, |data| + 1)) else 0)
      && |dat| == datEnd + (if Grows(path) then |data| + 1 else 0)
      && FreeSizes(book) == FreeAfter(path, m, free, key, data)
      && FREE_OFF in book.lists && Count(book) == TallyAfter(path, idxEnd, t)
      && (Grows(path) ==> HasRecord(book, idxEnd, key, data))
      && (cnt_stor1, cnt_stor2, cnt_stor3, cnt_stor4) == Counted(path, s1, s2, s3, s4)
    }

    method Store(key: Str, data: Str, flag: int) returns (rc: int)
      requires Valid()
      requires Storable(PathOf(book, key, data, flag), |dat|, key, data)
      modifies this`idx, this`dat, this`idxpos, this`idxbuf, this`datbuf, this`book
      modifies this`idxoff, this`idxlen, this`datoff, this`datlen, this`ptrval
      modifies this`chainoff, this`ptroff, this`cnt_storerr
      modifies this`cnt_stor1, this`cnt_stor2, this`cnt_stor3, this`cnt_stor4
      ensures Valid() && FREE_OFF in old(book.lists)
      ensures rc == StoreReply(old(Contents(book)), key, data, flag)
      ensures 1 <= |data| <= 1023 && flag == 1 ==> rc == if key in old(Contents(book)) then 1 else 0
      ensures 1 <= |data| <= 1023 && flag == 2 ==> rc == if key in old(Contents(book)) then 0 else -1
      ensures 1 <= |data| <= 1023 && flag == 3 ==> rc == 0
      ensures data == [] || |data| > 1023 || flag < 1 || flag > 3 ==> rc == -1
      ensures rc != 0 ==> Contents(book) == old(Contents(book))
      ensures rc == 0 && |old(idx)| <= 999999 ==> Contents(book) == old(Contents(book))[key := data]
      ensures Reaches(PathOf(old(book), key, data, flag), |old(idx)|) ==>
        Contents(book) == StoreMap(old(Contents(book)), key, data, flag)
      ensures !Reaches(PathOf(old(book), key, data, flag), |old(idx)|) ==>
        Contents(book) == old(Contents(book)) - {key}
      ensures Placed(PathOf(old(book), key, data, flag), |old(idx)|, |old(dat)|,
                     old(Contents(book)), old(FreeSizes(book)), old(Count(book)), key, data,
                     old(cnt_stor1), old(cnt_stor2), old(cnt_stor3), old(cnt_stor4))
      ensures Undisturbed(old(book), book, key)
      ensures cnt_storerr == old(cnt_storerr) + if BadArguments(data, flag) || rc == 0 then 0 else 1
    {
      hide Rep, Sound, Undisturbed, HashCell, Reading, Count, HasFree, Standing, Tail, Proper;
      hide Contents, NewSlot, Size, FreeSizes, HasRecord;
      hide PutPath, Located, TallyAfter, FreeAfter, Filed, PathOf;
      KeysOf(book);
      FreeHead(book);
      UndisturbedSelf(book, key);
      PathsOf(book, key, data, flag);
      StoreReplyIs(Contents(book), key, data, flag);
      RefuseLeaves(|idx|, Count(book), Contents(book), FreeSizes(book), key, data);
      if DB_INSERT != flag && DB_REPLACE != flag && DB_STORE != flag {
        return -1;
      }
      if DATLEN_MIN > |data| + 1 || DATLEN_MAX < |data| + 1 {
        return -1;
      }
      var rc', i := FindAndLock(key);
      if 0 > rc' {
        if DB_REPLACE == flag {
          cnt_storerr := cnt_storerr + 1;
          return -1;
        }
      } else {
        if DB_INSERT == flag {
          cnt_storerr := cnt_storerr + 1;
          return 1;
        }
      }
      Put(key, data, 0 <= rc', i);
      rc := 0;
    }

    // ----- reading everything -----

    method Rewind()
      modifies this`idxpos, this`idxoff
      ensures idxpos == idxoff == HEADER
      ensures Valid() ==> AtRecord() && forall x :: x in book.img.geo ==> idxpos <= x
    {
      hide Rep, Sound;
      if Valid() {
        RecordsAhead(idx, dat, book.img);
      }
      idxpos := HEADER;
      idxoff := idxpos;
    }

    // The descriptor stands between two records, or at the end.
    ghost predicate AtRecord()
      reads this
    {
      idxpos in book.img.geo || idxpos == |idx|
    }

    // The next record that is not blank; None at the end. From a place that no record can be
    // read at, where a lookup may have left the descriptor, None at once.
    method NextRec() returns (r: Option<(Str, Str)>)
      requires Valid()
      modifies this`idxoff, this`idxpos, this`idxlen, this`idxbuf, this`datoff, this`datlen, this`ptrval
      modifies this`datbuf, this`cnt_nextrec
      ensures old(AtRecord()) ==> AtRecord() && idxpos >= old(idxpos)
      ensures r.Some? ==> cnt_nextrec == old(cnt_nextrec) + 1
      ensures r.None? && (old(AtRecord()) || ParseIdx(idx, old(idxpos)).None?) ==>
        cnt_nextrec == old(cnt_nextrec)
      ensures old(AtRecord()) ==>
        var s := Walk(book.img, old(idxpos), |idx|);
        if s == [] then r == None && Walk(book.img, idxpos, |idx|) == []
        else
          && s[0] in book.img.key && s[0] in book.img.data
          && r == Some((book.img.key[s[0]], book.img.data[s[0]]))
          && Walk(book.img, idxpos, |idx|) == s[1..]
      ensures ParseIdx(idx, old(idxpos)).None? ==> r == None
    {
      hide Rep, Sound, ParseIdx, DatAt, Walk;
      ghost var placed := AtRecord();
      while true
        invariant cnt_nextrec == old(cnt_nextrec)
        invariant placed ==> AtRecord() && idxpos >= old(idxpos)
        invariant placed ==> Walk(book.img, idxpos, |idx|) == Walk(book.img, old(idxpos), |idx|)
        invariant ParseIdx(idx, old(idxpos)).None? ==> idxpos == old(idxpos)
        decreases |idx| - idxpos
      {
        if placed {
          WalkStep(idx, dat, book.img, idxpos);
        }
        ParsedInside(idx, idxpos);
        var rc := ReadIdx(0);
        if 0 > rc {
          return None;
        }
        if !Blank(idxbuf) {
          break;
        }
      }
      var key := idxbuf;
      var data := ReadDat();
      cnt_nextrec := cnt_nextrec + 1;
      r := match data case Some(d) => Some((key, d)) case None => None;
    }
  }
}
