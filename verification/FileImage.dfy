// The two files seen as pointer cells, index records and data extents.
// `Rep` says that the bytes hold exactly this image; each lemma below is one
// write of the program, carried from the bytes to the image.

module FileImage {
  import opened Wrappers
  import opened Bytes
  import opened IndexRecord

  const NHASH := 137
  const FREE_OFF := 0
  const HASH_OFF := PTR_SZ
  // the free-list pointer, the chain heads and a newline
  const HEADER := (NHASH + 1) * PTR_SZ + 1

  datatype Image = Image(
    geo: map<nat, Slot>,   // offset of a record -> what is fixed about it
    ptr: map<nat, nat>,    // pointer cells: list heads and the first field of each record
    key: map<nat, Str>,
    data: map<nat, Str>)

  predicate IsHead(c: nat) {
    c % PTR_SZ == 0 && c < (NHASH + 1) * PTR_SZ
  }

  // Records tile the index file behind its header, and their data extents tile the data
  // file in the same order.
  ghost predicate Tiles(geo: map<nat, Slot>, idxEnd: nat, datEnd: nat) {
    && HEADER <= idxEnd
    && (forall x :: x in geo ==> SlotOk(geo, x, idxEnd, datEnd))
    && (forall x {:trigger Follows(geo, x, idxEnd, datEnd)} :: x in geo ==>
      Follows(geo, x, idxEnd, datEnd))
    && (forall x, y :: x in geo && y in geo && x < y ==>
      x + Size(geo[x]) <= y && geo[x].datoff + geo[x].dlen <= geo[y].datoff)
    && (if idxEnd == HEADER then datEnd == 0 else HEADER in geo && geo[HEADER].datoff == 0)
  }

  ghost predicate SlotOk(geo: map<nat, Slot>, x: nat, idxEnd: nat, datEnd: nat)
    requires x in geo
  {
    var s := geo[x];
    && HEADER <= x
    && 15 <= Size(s)
    && x + Size(s) <= idxEnd
    && s.dlen > 0
    && s.datoff + s.dlen <= datEnd
  }

  // Where a record ends the next one begins, and likewise for its data.
  ghost predicate Follows(geo: map<nat, Slot>, x: nat, idxEnd: nat, datEnd: nat)
    requires x in geo
  {
    var s := geo[x];
    (if x + Size(s) == idxEnd then s.datoff + s.dlen == datEnd
        else x + Size(s) in geo && geo[x + Size(s)].datoff == s.datoff + s.dlen)
  }

  ghost predicate CellAt(idx: Str, c: nat, v: nat) {
    v <= PTR_MAX && c + PTR_SZ <= |idx| && idx[c..c + PTR_SZ] == Pad(v, PTR_SZ)
  }

  // The fixed-size length field and the text of a record.
  ghost predicate BodyAt(idx: Str, x: nat, key: Str, s: Slot) {
    && Proper(s) && |key| == s.klen && ProperKey(key)
    && x + Size(s) <= |idx|
    && idx[x + PTR_SZ..x + PTR_SZ + IDXLEN_SZ] == Pad(s.len, IDXLEN_SZ)
    && idx[x + PTR_SZ + IDXLEN_SZ..x + Size(s)] == key + Tail(s.datoff, s.dlen)
  }

  ghost predicate DataAt(dat: Str, s: Slot, d: Str) {
    && NUL !in d
    && |d| + 1 == s.dlen
    && s.datoff + s.dlen <= |dat|
    && dat[s.datoff..s.datoff + s.dlen] == d + [NEWLINE]
  }

  ghost predicate Rep(idx: Str, dat: Str, g: Image) {
    && Tiles(g.geo, |idx|, |dat|)
    && g.key.Keys == g.geo.Keys
    && g.data.Keys == g.geo.Keys
    && (forall c :: c in g.ptr <==> IsHead(c) || c in g.geo)
    && (forall c :: c in g.ptr ==> CellAt(idx, c, g.ptr[c]))
    && (forall x :: x in g.geo ==> BodyAt(idx, x, g.key[x], g.geo[x]))
    && (forall x :: x in g.geo ==> DataAt(dat, g.geo[x], g.data[x]))
  }

  // ----- what can be read -----

  function PtrAt(idx: Str, at: nat): int {
    if at >= |idx| then 0
    else if at + PTR_SZ > |idx| then -1
    else Atol(idx[at..at + PTR_SZ])
  }

  lemma ReadCell(idx: Str, dat: Str, g: Image, c: nat)
    requires Rep(idx, dat, g) && c in g.ptr
    ensures PtrAt(idx, c) == g.ptr[c] <= PTR_MAX
  {
    assert CellAt(idx, c, g.ptr[c]);
    AtolPad(g.ptr[c], PTR_SZ);
  }

  lemma ReadRecord(idx: Str, dat: Str, g: Image, x: nat)
    requires Rep(idx, dat, g) && x in g.geo
    ensures var s := g.geo[x];
      ParseIdx(idx, x) == Some(Entry(g.ptr[x], s.len, g.key[x], s.datoff, s.dlen))
  {
    var s := g.geo[x];
    assert SlotOk(g.geo, x, |idx|, |dat|);
    assert CellAt(idx, x, g.ptr[x]);
    assert BodyAt(idx, x, g.key[x], s);
    ParseEncoded(idx, x, g.ptr[x], g.key[x], s);
  }

  // ----- what a write does to one cell, one record, one data extent -----

  lemma CellMiss(f: Str, off: nat, bs: Str, c: nat, v: nat)
    requires off <= |f| && CellAt(f, c, v)
    requires c + PTR_SZ <= off || off + |bs| <= c
    ensures CellAt(WriteAt(f, off, bs), c, v)
  {
    WriteMiss(f, off, bs, c, c + PTR_SZ);
  }

  lemma BodyMiss(f: Str, off: nat, bs: Str, x: nat, key: Str, s: Slot)
    requires off <= |f| && BodyAt(f, x, key, s)
    requires x + Size(s) <= off || off + |bs| <= x + PTR_SZ
    ensures BodyAt(WriteAt(f, off, bs), x, key, s)
  {
    WriteMiss(f, off, bs, x + PTR_SZ, x + PTR_SZ + IDXLEN_SZ);
    WriteMiss(f, off, bs, x + PTR_SZ + IDXLEN_SZ, x + Size(s));
  }

  lemma DataMiss(f: Str, off: nat, bs: Str, s: Slot, d: Str)
    requires off <= |f| && DataAt(f, s, d)
    requires s.datoff + s.dlen <= off || off + |bs| <= s.datoff
    ensures DataAt(WriteAt(f, off, bs), s, d)
  {
    WriteMiss(f, off, bs, s.datoff, s.datoff + s.dlen);
  }

  lemma CellHit(f: Str, c: nat, v: nat)
    requires c <= |f| && v <= PTR_MAX
    ensures |Pad(v, PTR_SZ)| == PTR_SZ
    ensures CellAt(WriteAt(f, c, Pad(v, PTR_SZ)), c, v)
  {
    PadWidths(v, 0);
    var bs := Pad(v, PTR_SZ);
    WriteHit(f, c, bs, 0, PTR_SZ);
    assert bs[0..PTR_SZ] == bs;
  }

  lemma RecordHit(f: Str, x: nat, v: nat, k: Str, s: Slot)
    requires x <= |f| && v <= PTR_MAX && ProperKey(k) && |k| == s.klen && Proper(s)
    ensures CellAt(WriteAt(f, x, Encode(v, k, s)), x, v)
    ensures BodyAt(WriteAt(f, x, Encode(v, k, s)), x, k, s)
  {
    var bs := Encode(v, k, s);
    PadWidths(v, s.len);
    WriteHit(f, x, bs, 0, PTR_SZ);
    WriteHit(f, x, bs, PTR_SZ, PTR_SZ + IDXLEN_SZ);
    WriteHit(f, x, bs, PTR_SZ + IDXLEN_SZ, Size(s));
    assert bs[0..PTR_SZ] == Pad(v, PTR_SZ);
    assert bs[PTR_SZ..PTR_SZ + IDXLEN_SZ] == Pad(s.len, IDXLEN_SZ);
    assert bs[PTR_SZ + IDXLEN_SZ..Size(s)] == k + Tail(s.datoff, s.dlen);
  }

  lemma DataHit(f: Str, s: Slot, d: Str)
    requires s.datoff <= |f| && NUL !in d && |d| + 1 == s.dlen
    ensures DataAt(WriteAt(f, s.datoff, d + [NEWLINE]), s, d)
  {
    var bs := d + [NEWLINE];
    WriteHit(f, s.datoff, bs, 0, s.dlen);
    assert bs[0..s.dlen] == bs;
  }

  // ----- what a write does to the image -----

  lemma CellInside(idx: Str, dat: Str, g: Image, c: nat)
    requires Rep(idx, dat, g) && c in g.ptr
    ensures c + PTR_SZ <= |idx|
    ensures IsHead(c) ==> c + PTR_SZ < HEADER
  {
    hide Tiles, BodyAt, DataAt, Pad;
    assert CellAt(idx, c, g.ptr[c]);
  }

  // Two cells never overlap, and no cell overlaps the body of a record.
  lemma CellsApart(g: Image, idxEnd: nat, datEnd: nat, c: nat, e: nat)
    requires Tiles(g.geo, idxEnd, datEnd)
    requires IsHead(c) || c in g.geo
    requires IsHead(e) || e in g.geo
    ensures c < e ==> c + PTR_SZ <= e
    ensures c < e && c in g.geo ==> e in g.geo && c + Size(g.geo[c]) <= e
  {
    if c in g.geo {
      assert SlotOk(g.geo, c, idxEnd, datEnd);
    }
    if e in g.geo {
      assert SlotOk(g.geo, e, idxEnd, datEnd);
    }
  }

  // Both files are long enough for what the image places in them.
  lemma Inside(idx: Str, dat: Str, g: Image, x: nat)
    requires Rep(idx, dat, g) && x in g.geo
    ensures x in g.ptr && Proper(g.geo[x])
    ensures x + Size(g.geo[x]) <= |idx| && g.geo[x].datoff + g.geo[x].dlen <= |dat|
  {
    assert SlotOk(g.geo, x, |idx|, |dat|);
    assert BodyAt(idx, x, g.key[x], g.geo[x]);
  }

  lemma WriteCell(idx: Str, dat: Str, g: Image, c: nat, v: nat)
    requires Rep(idx, dat, g) && c in g.ptr && v <= PTR_MAX
    ensures c + PTR_SZ <= |idx|
    ensures |WriteAt(idx, c, Pad(v, PTR_SZ))| == |idx|
    ensures Rep(WriteAt(idx, c, Pad(v, PTR_SZ)), dat, g.(ptr := g.ptr[c := v]))
  {
    hide CellAt, BodyAt, DataAt, Tiles, IsHead, Pad, WriteAt;
    CellInside(idx, dat, g, c);
    CellHit(idx, c, v);
    OthersKeptByCell(idx, dat, g, c, Pad(v, PTR_SZ));
  }

  // A pointer-sized write at a cell leaves every other cell and every record body alone.
  lemma OthersKeptByCell(idx: Str, dat: Str, g: Image, c: nat, bs: Str)
    requires Rep(idx, dat, g) && c in g.ptr && |bs| == PTR_SZ
    ensures c + PTR_SZ <= |idx|
    ensures forall e :: e in g.ptr && e != c ==> CellAt(WriteAt(idx, c, bs), e, g.ptr[e])
    ensures forall y :: y in g.geo ==> BodyAt(WriteAt(idx, c, bs), y, g.key[y], g.geo[y])
  {
    hide CellAt, BodyAt, DataAt, Tiles, IsHead, WriteAt;
    CellInside(idx, dat, g, c);
    forall e | e in g.ptr && e != c
      ensures CellAt(WriteAt(idx, c, bs), e, g.ptr[e])
    {
      CellsApart(g, |idx|, |dat|, c, e);
      CellsApart(g, |idx|, |dat|, e, c);
      CellMiss(idx, c, bs, e, g.ptr[e]);
    }
    forall y | y in g.geo
      ensures BodyAt(WriteAt(idx, c, bs), y, g.key[y], g.geo[y])
    {
      CellsApart(g, |idx|, |dat|, c, y);
      CellsApart(g, |idx|, |dat|, y, c);
      BodyMiss(idx, c, bs, y, g.key[y], g.geo[y]);
    }
  }

  // A write that covers exactly record x leaves every other cell and record alone.
  lemma OthersKept(idx: Str, dat: Str, g: Image, x: nat, bs: Str)
    requires Rep(idx, dat, g) && x in g.geo && |bs| == Size(g.geo[x])
    ensures x + Size(g.geo[x]) <= |idx|
    ensures forall e :: e in g.ptr && e != x ==> CellAt(WriteAt(idx, x, bs), e, g.ptr[e])
    ensures forall y :: y in g.geo && y != x ==>
      BodyAt(WriteAt(idx, x, bs), y, g.key[y], g.geo[y])
  {
    hide CellAt, BodyAt, DataAt, Tiles, IsHead, Proper, WriteAt;
    Inside(idx, dat, g, x);
    forall e | e in g.ptr && e != x
      ensures CellAt(WriteAt(idx, x, bs), e, g.ptr[e])
    {
      CellsApart(g, |idx|, |dat|, x, e);
      CellsApart(g, |idx|, |dat|, e, x);
      CellMiss(idx, x, bs, e, g.ptr[e]);
    }
    forall y | y in g.geo && y != x
      ensures BodyAt(WriteAt(idx, x, bs), y, g.key[y], g.geo[y])
    {
      CellsApart(g, |idx|, |dat|, x, y);
      CellsApart(g, |idx|, |dat|, y, x);
      BodyMiss(idx, x, bs, y, g.key[y], g.geo[y]);
    }
  }

  // Rewriting a record in place, under a key of the same length, touches nothing else.
  lemma RewriteRecord(idx: Str, dat: Str, g: Image, x: nat, v: nat, k: Str)
    requires Rep(idx, dat, g) && x in g.geo && v <= PTR_MAX
    requires ProperKey(k) && |k| == g.geo[x].klen
    ensures Proper(g.geo[x]) && x + Size(g.geo[x]) <= |idx|
    ensures |WriteAt(idx, x, Encode(v, k, g.geo[x]))| == |idx|
    ensures Rep(WriteAt(idx, x, Encode(v, k, g.geo[x])), dat,
                g.(ptr := g.ptr[x := v], key := g.key[x := k]))
  {
    hide CellAt, BodyAt, DataAt, Tiles, IsHead, ProperKey, Proper, Encode, WriteAt;
    Inside(idx, dat, g, x);
    RecordHit(idx, x, v, k, g.geo[x]);
    OthersKept(idx, dat, g, x, Encode(v, k, g.geo[x]));
  }

  lemma ExtentsApart(geo: map<nat, Slot>, idxEnd: nat, datEnd: nat, x: nat, y: nat)
    requires Tiles(geo, idxEnd, datEnd) && x in geo && y in geo && x != y
    ensures geo[x].datoff + geo[x].dlen <= geo[y].datoff
         || geo[y].datoff + geo[y].dlen <= geo[x].datoff
  {
    assert x < y || y < x;
  }

  // Refilling a data extent with as many bytes touches nothing else.
  lemma RewriteData(idx: Str, dat: Str, g: Image, x: nat, d: Str)
    requires Rep(idx, dat, g) && x in g.geo
    requires NUL !in d && |d| + 1 == g.geo[x].dlen
    ensures g.geo[x].datoff + g.geo[x].dlen <= |dat|
    ensures |WriteAt(dat, g.geo[x].datoff, d + [NEWLINE])| == |dat|
    ensures Rep(idx, WriteAt(dat, g.geo[x].datoff, d + [NEWLINE]),
                g.(data := g.data[x := d]))
  {
    hide CellAt, BodyAt, DataAt, Tiles, IsHead, Proper, WriteAt;
    Inside(idx, dat, g, x);
    DataHit(dat, g.geo[x], d);
    forall y | y in g.geo && y != x
      ensures DataAt(WriteAt(dat, g.geo[x].datoff, d + [NEWLINE]), g.geo[y], g.data[y])
    {
      ExtentsApart(g.geo, |idx|, |dat|, x, y);
      DataMiss(dat, g.geo[x].datoff, d + [NEWLINE], g.geo[y], g.data[y]);
    }
  }

  // A new record at the end of the index file, with its data at the end of the data file.
  ghost function WithRecord(g: Image, x: nat, s: Slot, v: nat, k: Str, d: Str): Image {
    Image(g.geo[x := s], g.ptr[x := v], g.key[x := k], g.data[x := d])
  }

  lemma AppendTiles(geo: map<nat, Slot>, idxEnd: nat, datEnd: nat, s: Slot)
    requires Tiles(geo, idxEnd, datEnd)
    requires s.datoff == datEnd && Proper(s)
    ensures idxEnd !in geo && !IsHead(idxEnd)
    ensures Tiles(geo[idxEnd := s], idxEnd + Size(s), datEnd + s.dlen)
  {
    hide Proper, Follows, SlotOk;
    BelowEnd(geo, idxEnd, datEnd);
    var geo' := geo[idxEnd := s];
    forall x | x in geo'
      ensures SlotOk(geo', x, idxEnd + Size(s), datEnd + s.dlen)
      ensures Follows(geo', x, idxEnd + Size(s), datEnd + s.dlen)
    {
      AppendSlot(geo, idxEnd, datEnd, s, x);
    }
  }

  lemma BelowEnd(geo: map<nat, Slot>, idxEnd: nat, datEnd: nat)
    requires Tiles(geo, idxEnd, datEnd)
    ensures forall x :: x in geo ==>
      HEADER <= x && x + 15 <= x + Size(geo[x]) <= idxEnd && geo[x].datoff + geo[x].dlen <= datEnd
  {
    hide Follows;
  }

  lemma AppendSlot(geo: map<nat, Slot>, idxEnd: nat, datEnd: nat, s: Slot, x: nat)
    requires Tiles(geo, idxEnd, datEnd) && s.datoff == datEnd && Proper(s)
    requires x in geo || x == idxEnd
    ensures SlotOk(geo[idxEnd := s], x, idxEnd + Size(s), datEnd + s.dlen)
    ensures Follows(geo[idxEnd := s], x, idxEnd + Size(s), datEnd + s.dlen)
  {
    BelowEnd(geo, idxEnd, datEnd);
    if x != idxEnd {
      assert SlotOk(geo, x, idxEnd, datEnd);
      assert Follows(geo, x, idxEnd, datEnd);
    } else {
      ProperSize(s);
    }
  }

  lemma ProperSize(s: Slot)
    requires Proper(s)
    ensures Size(s) >= 15 && s.dlen > 0
  {
  }

  // A write at the end of a file leaves all of the image alone.
  lemma AllKept(idx: Str, dat: Str, g: Image, bs: Str, ds: Str)
    requires Rep(idx, dat, g)
    ensures forall e :: e in g.ptr ==> CellAt(WriteAt(idx, |idx|, bs), e, g.ptr[e])
    ensures forall y :: y in g.geo ==>
      BodyAt(WriteAt(idx, |idx|, bs), y, g.key[y], g.geo[y])
    ensures forall y :: y in g.geo ==> DataAt(WriteAt(dat, |dat|, ds), g.geo[y], g.data[y])
  {
    hide CellAt, BodyAt, DataAt, Tiles, IsHead, Proper, WriteAt;
    forall e | e in g.ptr
      ensures CellAt(WriteAt(idx, |idx|, bs), e, g.ptr[e])
    {
      CellInside(idx, dat, g, e);
      CellMiss(idx, |idx|, bs, e, g.ptr[e]);
    }
    forall y | y in g.geo
      ensures BodyAt(WriteAt(idx, |idx|, bs), y, g.key[y], g.geo[y])
      ensures DataAt(WriteAt(dat, |dat|, ds), g.geo[y], g.data[y])
    {
      Inside(idx, dat, g, y);
      BodyMiss(idx, |idx|, bs, y, g.key[y], g.geo[y]);
      DataMiss(dat, |dat|, ds, g.geo[y], g.data[y]);
    }
  }

  lemma AppendRecord(idx: Str, dat: Str, g: Image, s: Slot, v: nat, k: Str, d: Str)
    requires Rep(idx, dat, g) && v <= PTR_MAX
    requires ProperKey(k) && |k| == s.klen && Proper(s)
    requires NUL !in d && |d| + 1 == s.dlen && s.datoff == |dat|
    ensures |idx| !in g.geo && |idx| !in g.ptr
    ensures Rep(WriteAt(idx, |idx|, Encode(v, k, s)), WriteAt(dat, |dat|, d + [NEWLINE]),
                WithRecord(g, |idx|, s, v, k, d))
  {
    hide CellAt, BodyAt, DataAt, Tiles, IsHead, ProperKey, Proper, Encode, WriteAt;
    AppendTiles(g.geo, |idx|, |dat|, s);
    RecordHit(idx, |idx|, v, k, s);
    DataHit(dat, s, d);
    AllKept(idx, dat, g, Encode(v, k, s), d + [NEWLINE]);
  }

  // ----- nothing is lost -----

  // Every byte behind the header belongs to a record, and every byte of data to a record's
  // extent; by Tiles to no more than one.
  lemma {:induction false} NoGaps(geo: map<nat, Slot>, idxEnd: nat, datEnd: nat, at: nat, p: nat) returns (x: nat)
    requires Tiles(geo, idxEnd, datEnd) && at in geo && at <= p < idxEnd
    ensures x in geo && x <= p < x + Size(geo[x])
    decreases idxEnd - at
  {
    assert SlotOk(geo, at, idxEnd, datEnd);
    assert Follows(geo, at, idxEnd, datEnd);
    x := at;
    if p >= at + Size(geo[at]) {
      x := NoGaps(geo, idxEnd, datEnd, at + Size(geo[at]), p);
    }
  }

  lemma {:induction false} NoDataGaps(geo: map<nat, Slot>, idxEnd: nat, datEnd: nat, at: nat, p: nat) returns (x: nat)
    requires Tiles(geo, idxEnd, datEnd) && at in geo && geo[at].datoff <= p < datEnd
    ensures x in geo && geo[x].datoff <= p < geo[x].datoff + geo[x].dlen
    decreases idxEnd - at
  {
    assert SlotOk(geo, at, idxEnd, datEnd);
    assert Follows(geo, at, idxEnd, datEnd);
    x := at;
    if p >= geo[at].datoff + geo[at].dlen {
      x := NoDataGaps(geo, idxEnd, datEnd, at + Size(geo[at]), p);
    }
  }

  ghost predicate Holds(geo: map<nat, Slot>, x: nat, p: nat) {
    x in geo && x <= p < x + Size(geo[x])
  }

  ghost predicate HoldsData(geo: map<nat, Slot>, x: nat, p: nat) {
    x in geo && geo[x].datoff <= p < geo[x].datoff + geo[x].dlen
  }

  // Exactly one record holds each byte behind the header of the index file.
  lemma EveryByteOwned(geo: map<nat, Slot>, idxEnd: nat, datEnd: nat, p: nat)
    requires Tiles(geo, idxEnd, datEnd) && HEADER <= p < idxEnd
    ensures exists x :: Holds(geo, x, p) && forall y :: Holds(geo, y, p) ==> y == x
  {
    hide Size;
    var x := NoGaps(geo, idxEnd, datEnd, HEADER, p);
    forall y | Holds(geo, y, p)
      ensures y == x
    {
      assert x < y || y < x || x == y;
    }
    assert Holds(geo, x, p);
  }

  // And exactly one record holds each byte of the data file.
  lemma EveryDataByteOwned(geo: map<nat, Slot>, idxEnd: nat, datEnd: nat, p: nat)
    requires Tiles(geo, idxEnd, datEnd) && p < datEnd
    ensures exists x :: HoldsData(geo, x, p) && forall y :: HoldsData(geo, y, p) ==> y == x
  {
    hide Size;
    var x := NoDataGaps(geo, idxEnd, datEnd, HEADER, p);
    forall y | HoldsData(geo, y, p)
      ensures y == x
    {
      assert x < y || y < x || x == y;
    }
    assert HoldsData(geo, x, p);
  }
}
