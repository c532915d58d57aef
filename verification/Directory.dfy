// The database as a map: which key lives in which record, and what the four ways of
// storing and the one way of deleting do to that. Records that are not live are blank
// and on the free list.

module Directory {
  import opened Bytes
  import opened IndexRecord
  import opened FileImage
  import opened Lists

  const WORD := 0x1_0000_0000_0000_0000

  // char is signed
  function SignedChar(c: Byte): int {
    if c < 128 then c else c - 256
  }

  function HashSum(k: Str): (h: nat)
    ensures h < WORD
  {
    if k == [] then 0
    else (HashSum(k[..|k| - 1]) + SignedChar(k[|k| - 1]) * |k|) % WORD
  }

  lemma SignedCharIs(c: Byte)
    ensures -128 <= SignedChar(c) <= 127 && (SignedChar(c) - c) % 256 == 0
  {
  }

  // The sum without any wrapping, from character i on.
  ghost function Weighted(k: Str, i: nat): int
    requires i <= |k|
    decreases |k| - i
  {
    if i == |k| then 0 else (i + 1) * SignedChar(k[i]) + Weighted(k, i + 1)
  }

  lemma {:induction false} WeightedBut(k: Str, i: nat)
    requires i < |k|
    ensures Weighted(k, i) == Weighted(k[..|k| - 1], i) + |k| * SignedChar(k[|k| - 1])
    decreases |k| - i
  {
    if i + 1 < |k| {
      WeightedBut(k, i + 1);
    }
  }

  // Wrapping after every character comes to wrapping once.
  lemma {:induction false} HashSumInClosedForm(k: Str)
    ensures HashSum(k) == Weighted(k, 0) % 0x1_0000_0000_0000_0000
  {
    if k != [] {
      HashSumInClosedForm(k[..|k| - 1]);
      WeightedBut(k, 0);
      AddMod(Weighted(k[..|k| - 1], 0), SignedChar(k[|k| - 1]) * |k|);
    }
  }

  lemma AddMod(x: int, y: int)
    ensures (x % WORD + y) % WORD == (x + y) % WORD
  {
    var q := x / WORD;
    assert x + y == (x % WORD + y) + WORD * q;
    WholeWords(x % WORD + y, q);
  }

  lemma WholeWords(r: int, q: int)
    ensures (r + WORD * q) % WORD == r % WORD
  {
  }

  // The next character at place i raises the sum by i + 1.
  lemma HashSumWeights(k: Str, i: nat)
    requires i < |k| && k[i] != 127 && k[i] != 255
    ensures HashSum(k[i := k[i] + 1]) == (HashSum(k) + i + 1) % 0x1_0000_0000_0000_0000
  {
    HashSumInClosedForm(k);
    HashSumInClosedForm(k[i := k[i] + 1]);
    WeightedRaised(k, i, 0);
    AddMod(Weighted(k, 0), i + 1);
  }

  lemma {:induction false} WeightedRaised(k: Str, i: nat, j: nat)
    requires i < |k| && k[i] != 127 && k[i] != 255 && j <= |k|
    ensures Weighted(k[i := k[i] + 1], j) == Weighted(k, j) + if j <= i then i + 1 else 0
    decreases |k| - j
  {
    if j < |k| {
      WeightedRaised(k, i, j + 1);
      if j == i {
        Raised(i + 1, SignedChar(k[i]));
      }
    }
  }

  lemma Raised(n: int, c: int)
    ensures n * (c + 1) == n * c + n
  {
  }

  // The chain head of a key.
  function HashCell(k: Str): (c: nat)
    ensures IsHead(c) && c != FREE_OFF
  {
    HASH_OFF + PTR_SZ * (HashSum(k) % NHASH)
  }

  // In numbers: one of the 137 cells behind the first one.
  lemma HashCellIs(k: Str)
    ensures HashCell(k) == 6 + 6 * (Weighted(k, 0) % 0x1_0000_0000_0000_0000 % 137)
  {
    hide HashSum;
    HashSumInClosedForm(k);
  }

  // "abc", and a character above 127.
  lemma HashExamples()
    ensures HashCell([97, 98, 99]) == 6 + 6 * 42 && HashCell([255]) == 6 + 6 * 59
  {
    hide HashSum, HashCell, Weighted;
    HashCellIs([97, 98, 99]);
    HashCellIs([255]);
    WeightedExamples();
  }

  lemma WeightedExamples()
    ensures Weighted([97, 98, 99], 0) == 590 && Weighted([255], 0) == -1
  {
    var k: Str := [97, 98, 99];
    assert Weighted(k, 3) == 0;
    assert Weighted(k, 2) == 297;
    assert Weighted(k, 1) == 493;
    assert Weighted([255], 1) == 0;
  }

  datatype Book = Book(
    img: Image,
    lists: map<nat, seq<nat>>,
    owner: map<nat, nat>,
    at: map<Str, nat>)

  // Records on the free list are blank; live records and live keys correspond one to one,
  // and each is on the chain of its own key.
  ghost predicate Filed(key: map<nat, Str>, data: map<nat, Str>, owner: map<nat, nat>, at: map<Str, nat>) {
    && (forall x :: x in owner ==> x in key && x in data)
    && (forall x :: x in owner && owner[x] == FREE_OFF ==> Blank(key[x]) && Blank(data[x]))
    && (forall x :: x in owner && owner[x] != FREE_OFF ==>
      key[x] in at && at[key[x]] == x && HashCell(key[x]) == owner[x])
    && (forall k :: k in at ==>
      at[k] in owner && owner[at[k]] != FREE_OFF && key[at[k]] == k)
  }

  ghost function Reading(key: map<nat, Str>, data: map<nat, Str>, owner: map<nat, nat>, at: map<Str, nat>)
    : map<Str, Str>
    requires Filed(key, data, owner, at)
  {
    map k | k in at :: data[at[k]]
  }

  lemma FileRecord(key: map<nat, Str>, data: map<nat, Str>, owner: map<nat, nat>, at: map<Str, nat>,
                   x: nat, k: Str, d: Str)
    requires Filed(key, data, owner, at) && k !in at
    requires x in owner ==> owner[x] == FREE_OFF
    ensures Filed(key[x := k], data[x := d], owner[x := HashCell(k)], at[k := x])
    ensures Reading(key[x := k], data[x := d], owner[x := HashCell(k)], at[k := x])
         == Reading(key, data, owner, at)[k := d]
  {
    hide HashCell;
    forall i | i in at
      ensures at[i] != x
    {
      assert owner[at[i]] != FREE_OFF;
    }
  }

  lemma RetireRecord(key: map<nat, Str>, data: map<nat, Str>, owner: map<nat, nat>, at: map<Str, nat>,
                     k: Str, n: nat, m: nat)
    requires Filed(key, data, owner, at) && k in at
    ensures Filed(key[at[k] := Spaces(n)], data[at[k] := Spaces(m)], owner[at[k] := FREE_OFF], at - {k})
    ensures Reading(key[at[k] := Spaces(n)], data[at[k] := Spaces(m)], owner[at[k] := FREE_OFF], at - {k})
         == Reading(key, data, owner, at) - {k}
  {
    hide HashCell;
    assert key[at[k]] == k;
    forall j | j in at && j != k
      ensures at[j] != at[k]
    {
      assert key[at[j]] == j;
    }
  }

  lemma RefillRecord(key: map<nat, Str>, data: map<nat, Str>, owner: map<nat, nat>, at: map<Str, nat>,
                     k: Str, d: Str)
    requires Filed(key, data, owner, at) && k in at
    ensures Filed(key, data[at[k] := d], owner, at)
    ensures Reading(key, data[at[k] := d], owner, at) == Reading(key, data, owner, at)[k := d]
  {
    hide HashCell;
    assert key[at[k]] == k;
    forall j | j in at && j != k
      ensures at[j] != at[k]
    {
      assert key[at[j]] == j;
    }
  }

  // Every record that a pointer field can address is on a list.
  ghost predicate Addressed(b: Book) {
    forall x :: x in b.img.geo ==> (x in b.owner <==> x <= PTR_MAX)
  }

  ghost predicate Sound(b: Book) {
    && WellLinked(b.img.ptr, b.lists, b.owner)
    && (forall x :: x in b.owner ==> x in b.img.geo)
    && Filed(b.img.key, b.img.data, b.owner, b.at)
    && Addressed(b)
  }

  ghost function Contents(b: Book): map<Str, Str>
    requires Filed(b.img.key, b.img.data, b.owner, b.at)
  {
    Reading(b.img.key, b.img.data, b.owner, b.at)
  }

  // A database with nothing in it.
  ghost function EmptyBook(): Book {
    var cells := set c | 0 <= c < HEADER && IsHead(c);
    Book(Image(map[], map c | c in cells :: 0, map[], map[]),
         map c | c in cells :: [], map[], map[])
  }

  lemma EmptySound()
    ensures Sound(EmptyBook()) && FREE_OFF in EmptyBook().lists
    ensures Contents(EmptyBook()) == map[]
    ensures Count(EmptyBook()) == Tally(0, 0, 0, 0) && FreeSizes(EmptyBook()) == multiset{}
  {
    forall h | IsHead(h)
      ensures h in EmptyBook().lists && Linked(EmptyBook().img.ptr, h, EmptyBook().lists[h])
    {
    }
  }

  lemma EmptyRep(idx: Str)
    requires |idx| == HEADER
    requires forall j :: 0 <= j < NHASH + 1 ==> idx[PTR_SZ * j..PTR_SZ * j + PTR_SZ] == Pad(0, PTR_SZ)
    ensures Rep(idx, [], EmptyBook().img)
  {
    forall c | c in EmptyBook().img.ptr
      ensures CellAt(idx, c, 0)
    {
      assert c == PTR_SZ * (c / PTR_SZ);
    }
  }

  // Where a live key stands on its chain.
  lemma Position(b: Book, k: Str) returns (i: nat)
    requires Sound(b) && k in b.at
    ensures IsHead(HashCell(k)) && HashCell(k) in b.lists
    ensures i < |b.lists[HashCell(k)]| && b.lists[HashCell(k)][i] == b.at[k]
  {
    var x := b.at[k];
    assert b.img.key[x] == k;
    assert b.owner[x] == HashCell(k);
    assert x in b.lists[b.owner[x]];
    i :| 0 <= i < |b.lists[HashCell(k)]| && b.lists[HashCell(k)][i] == x;
  }

  ghost predicate OnList(b: Book, h: nat, x: nat) {
    IsHead(h) && h in b.lists && x in b.lists[h]
  }

  // Every record a pointer can address is on exactly one list: the free list, with nothing
  // in it, or the chain of the key it holds.
  lemma OnExactlyOneList(b: Book, x: nat)
    requires Sound(b) && x in b.img.geo && x <= PTR_MAX
    ensures x in b.img.key && x in b.img.data
    ensures exists h :: OnList(b, h, x) && forall g :: OnList(b, g, x) ==> g == h
    ensures OnList(b, FREE_OFF, x) ==> Blank(b.img.key[x]) && Blank(b.img.data[x])
    ensures !OnList(b, FREE_OFF, x) ==>
      && OnList(b, HashCell(b.img.key[x]), x)
      && b.img.key[x] in Contents(b) && Contents(b)[b.img.key[x]] == b.img.data[x]
  {
    hide HashCell;
    var h := b.owner[x];
    forall g | OnList(b, g, x)
      ensures g == h
    {
      assert Owns(b.owner, g, b.lists[g]);
    }
    assert OnList(b, h, x);
  }

  // A record on a chain is live, under the key it holds.
  lemma OnChain(b: Book, h: nat, i: nat)
    requires Sound(b) && IsHead(h) && h != FREE_OFF && h in b.lists && i < |b.lists[h]|
    ensures b.lists[h][i] in b.img.geo && b.img.key[b.lists[h][i]] in b.at
    ensures b.at[b.img.key[b.lists[h][i]]] == b.lists[h][i]
  {
    Reachable(b.img.ptr, b.lists, b.owner, h, i);
  }

  // ----- delete -----

  ghost predicate Standing(b: Book, k: Str, i: nat) {
    && k in b.at && HashCell(k) in b.lists && FREE_OFF in b.lists
    && i < |b.lists[HashCell(k)]| && b.lists[HashCell(k)][i] == b.at[k]
    && b.at[k] in b.img.ptr && FREE_OFF in b.img.ptr
    && b.at[k] in b.img.geo && b.img.geo[b.at[k]].dlen > 0
  }

  ghost function Deleted(b: Book, k: Str, i: nat): Book
    requires Standing(b, k, i)
  {
    var x, h := b.at[k], HashCell(k);
    Book(b.img.(ptr := MovePtr(b.img.ptr, b.lists, h, i, FREE_OFF),
                key := b.img.key[x := Spaces(b.img.geo[x].klen)],
                data := b.img.data[x := Spaces(b.img.geo[x].dlen - 1)]),
         MoveLists(b.lists, h, i, FREE_OFF),
         b.owner[x := FREE_OFF],
         b.at - {k})
  }

  lemma DeletedSound(b: Book, k: Str, i: nat)
    requires Sound(b) && Standing(b, k, i)
    ensures Sound(Deleted(b, k, i))
    ensures Contents(Deleted(b, k, i)) == Contents(b) - {k}
  {
    hide WellLinked, HashCell, Filed, Reading, MovePtr, MoveLists;
    Reachable(b.img.ptr, b.lists, b.owner, HashCell(k), i);
    Move(b.img.ptr, b.lists, b.owner, HashCell(k), i, FREE_OFF);
    RetireRecord(b.img.key, b.img.data, b.owner, b.at, k, b.img.geo[b.at[k]].klen, b.img.geo[b.at[k]].dlen - 1);
  }

  // ----- store into a free record -----

  ghost predicate Fits(b: Book, j: nat, k: Str, d: Str) {
    && FREE_OFF in b.lists && j < |b.lists[FREE_OFF]|
    && HashCell(k) in b.lists && HashCell(k) in b.img.ptr
    && b.lists[FREE_OFF][j] in b.img.ptr
    && b.lists[FREE_OFF][j] in b.img.geo
    && b.img.geo[b.lists[FREE_OFF][j]].klen == |k|
    && b.img.geo[b.lists[FREE_OFF][j]].dlen == |d| + 1
  }

  ghost function Reused(b: Book, j: nat, k: Str, d: Str): Book
    requires Fits(b, j, k, d)
  {
    var x, h := b.lists[FREE_OFF][j], HashCell(k);
    Book(b.img.(ptr := MovePtr(b.img.ptr, b.lists, FREE_OFF, j, h),
                key := b.img.key[x := k], data := b.img.data[x := d]),
         MoveLists(b.lists, FREE_OFF, j, h),
         b.owner[x := h],
         b.at[k := x])
  }

  lemma ReusedSound(b: Book, j: nat, k: Str, d: Str)
    requires Sound(b) && k !in b.at && Fits(b, j, k, d)
    ensures Sound(Reused(b, j, k, d))
    ensures Contents(Reused(b, j, k, d)) == Contents(b)[k := d]
  {
    hide WellLinked, HashSum, HashCell, Filed, Reading, MovePtr, MoveLists;
    Reachable(b.img.ptr, b.lists, b.owner, FREE_OFF, j);
    Move(b.img.ptr, b.lists, b.owner, FREE_OFF, j, HashCell(k));
    FileRecord(b.img.key, b.img.data, b.owner, b.at, b.lists[FREE_OFF][j], k, d);
  }

  // ----- store into a new record -----

  // Beyond PTR_MAX the record is written but no pointer can reach it.
  ghost function Appended(b: Book, x: nat, s: Slot, k: Str, d: Str): Book
    requires HashCell(k) in b.img.ptr && HashCell(k) in b.lists
  {
    var h := HashCell(k);
    var img := WithRecord(b.img, x, s, b.img.ptr[h], k, d);
    if x <= PTR_MAX then
      Book(img.(ptr := PushPtr(b.img.ptr, h, x)), b.lists[h := [x] + b.lists[h]],
           b.owner[x := h], b.at[k := x])
    else
      Book(img, b.lists, b.owner, b.at)
  }

  ghost predicate HasRecord(b: Book, x: nat, k: Str, d: Str) {
    && x in b.img.geo
    && x in b.img.key && b.img.key[x] == k
    && x in b.img.data && b.img.data[x] == d
  }

  lemma AppendedRecord(b: Book, x: nat, s: Slot, k: Str, d: Str)
    requires HashCell(k) in b.img.ptr && HashCell(k) in b.lists
    ensures HasRecord(Appended(b, x, s, k, d), x, k, d)
  {
    hide HashSum;
  }

  lemma AppendedSound(b: Book, x: nat, s: Slot, k: Str, d: Str)
    requires Sound(b) && k !in b.at
    requires x !in b.img.geo && x !in b.img.ptr && !IsHead(x)
    ensures HashCell(k) in b.img.ptr && HashCell(k) in b.lists
    ensures Sound(Appended(b, x, s, k, d))
    ensures Contents(Appended(b, x, s, k, d))
         == if x <= PTR_MAX then Contents(b)[k := d] else Contents(b)
  {
    hide WellLinked, HashSum, HashCell, Filed, Reading;
    HeadIsCell(b.img.ptr, b.lists, b.owner, HashCell(k));
    if x <= PTR_MAX {
      Push(b.img.ptr, b.lists, b.owner, HashCell(k), x);
      FileRecord(b.img.key, b.img.data, b.owner, b.at, x, k, d);
    } else {
      StrayRecord(b.img.key, b.img.data, b.owner, b.at, x, k, d);
      StrayCell(b.img.ptr, b.lists, b.owner, x, b.img.ptr[HashCell(k)]);
    }
  }

  lemma StrayCell(ptr: map<nat, nat>, lists: map<nat, seq<nat>>, owner: map<nat, nat>, x: nat, v: nat)
    requires WellLinked(ptr, lists, owner) && x !in ptr
    ensures WellLinked(ptr[x := v], lists, owner)
  {
    forall h | IsHead(h)
      ensures Linked(ptr[x := v], h, lists[h])
    {
      assert Linked(ptr, h, lists[h]);
    }
  }

  lemma StrayRecord(key: map<nat, Str>, data: map<nat, Str>, owner: map<nat, nat>, at: map<Str, nat>,
                    x: nat, k: Str, d: Str)
    requires Filed(key, data, owner, at) && x !in owner
    ensures Filed(key[x := k], data[x := d], owner, at)
    ensures Reading(key[x := k], data[x := d], owner, at) == Reading(key, data, owner, at)
  {
    hide HashCell;
  }

  // ----- store over data of the same length -----

  ghost function Overwritten(b: Book, k: Str, d: Str): Book
    requires k in b.at
  {
    b.(img := b.img.(data := b.img.data[b.at[k] := d]))
  }

  lemma OverwrittenSound(b: Book, k: Str, d: Str)
    requires Sound(b) && k in b.at
    ensures Sound(Overwritten(b, k, d))
    ensures Contents(Overwritten(b, k, d)) == Contents(b)[k := d]
  {
    hide WellLinked, HashCell, Filed, Reading;
    RefillRecord(b.img.key, b.img.data, b.owner, b.at, k, d);
  }

  // ----- what an operation on one key leaves alone, and how the records add up -----

  // Records never move or change shape, and the other keys keep theirs and their data.
  ghost predicate Undisturbed(b: Book, b': Book, k: Str) {
    && (forall x :: x in b.img.geo ==> x in b'.img.geo && b'.img.geo[x] == b.img.geo[x])
    && (forall j :: j in b.at && j != k ==>
      && j in b'.at && b'.at[j] == b.at[j]
      && b.at[j] in b.img.data && b.at[j] in b'.img.data
      && b'.img.data[b.at[j]] == b.img.data[b.at[j]])
  }

  lemma UndisturbedSelf(b: Book, k: Str)
    requires Sound(b)
    ensures Undisturbed(b, b, k)
  {
    hide HashCell, WellLinked;
  }

  lemma UndisturbedTwice(b: Book, b': Book, b'': Book, k: Str)
    requires Undisturbed(b, b', k) && Undisturbed(b', b'', k)
    ensures Undisturbed(b, b'', k)
  {
  }

  // stray: records beyond PTR_MAX, which are in the file but on no list
  datatype Tally = Tally(records: int, live: int, free: int, stray: int)

  ghost function Count(b: Book): Tally
    requires FREE_OFF in b.lists
  {
    Tally(|b.img.geo|, |b.at|, |b.lists[FREE_OFF]|, |b.img.geo| - |b.owner|)
  }

  lemma DeletedOthers(b: Book, k: Str, i: nat)
    requires Sound(b) && Standing(b, k, i)
    ensures Undisturbed(b, Deleted(b, k, i), k)
    ensures FREE_OFF in Deleted(b, k, i).lists
    ensures Count(Deleted(b, k, i))
         == Count(b).(live := Count(b).live - 1, free := Count(b).free + 1)
  {
    hide WellLinked, Addressed, HashCell, HashSum, Filed, MovePtr;
    Distinct(b);
    OnOwner(b, k);
    var b' := Deleted(b, k, i);
    assert b'.at.Keys == b.at.Keys - {k};
    assert |b'.at| == |b'.at.Keys| == |b.at.Keys| - 1;
    assert b'.owner.Keys == b.owner.Keys;
    assert |b'.owner| == |b'.owner.Keys| == |b.owner|;
    assert IsHead(HashCell(k)) && HashCell(k) != FREE_OFF;
  }

  lemma Distinct(b: Book)
    requires Sound(b)
    ensures forall j, k :: j in b.at && k in b.at && j != k ==> b.at[j] != b.at[k]
    ensures forall j :: j in b.at ==>
      b.at[j] in b.img.data && b.at[j] in b.owner && b.owner[b.at[j]] != FREE_OFF
  {
    hide HashCell, WellLinked;
    forall j, k | j in b.at && k in b.at && j != k
      ensures b.at[j] != b.at[k]
    {
      assert b.img.key[b.at[j]] == j;
      assert b.img.key[b.at[k]] == k;
    }
  }

  lemma OnOwner(b: Book, k: Str)
    requires Sound(b) && k in b.at
    ensures b.at[k] in b.owner
  {
  }

  lemma ReusedOthers(b: Book, j: nat, k: Str, d: Str)
    requires Sound(b) && k !in b.at && Fits(b, j, k, d)
    ensures Undisturbed(b, Reused(b, j, k, d), k)
  {
    hide WellLinked, Addressed, HashCell, HashSum, MovePtr, MoveLists, Filed;
    Reachable(b.img.ptr, b.lists, b.owner, FREE_OFF, j);
    Distinct(b);
  }

  lemma ReusedCount(b: Book, j: nat, k: Str, d: Str)
    requires Sound(b) && k !in b.at && Fits(b, j, k, d)
    ensures FREE_OFF in Reused(b, j, k, d).lists
    ensures Count(Reused(b, j, k, d))
         == Count(b).(live := Count(b).live + 1, free := Count(b).free - 1)
  {
    hide WellLinked, Addressed, HashCell, HashSum, MovePtr, Filed;
    Reachable(b.img.ptr, b.lists, b.owner, FREE_OFF, j);
    var b' := Reused(b, j, k, d);
    assert b'.owner.Keys == b.owner.Keys;
    assert |b'.owner| == |b'.owner.Keys| == |b.owner|;
  }

  lemma AppendedOthers(b: Book, x: nat, s: Slot, k: Str, d: Str)
    requires Sound(b) && k !in b.at && x !in b.img.geo
    requires HashCell(k) in b.img.ptr && HashCell(k) in b.lists
    ensures Undisturbed(b, Appended(b, x, s, k, d), k)
  {
    hide WellLinked, Addressed, HashCell, HashSum, PushPtr, Filed;
    Distinct(b);
  }

  lemma AppendedCount(b: Book, x: nat, s: Slot, k: Str, d: Str)
    requires Sound(b) && k !in b.at && x !in b.img.geo
    requires HashCell(k) in b.img.ptr && HashCell(k) in b.lists && FREE_OFF in b.lists
    ensures FREE_OFF in Appended(b, x, s, k, d).lists
    ensures Count(Appended(b, x, s, k, d))
         == if x <= PTR_MAX then Count(b).(records := Count(b).records + 1, live := Count(b).live + 1)
            else Count(b).(records := Count(b).records + 1, stray := Count(b).stray + 1)
  {
    hide WellLinked, Addressed, HashCell, HashSum, PushPtr, Filed;
    assert x !in b.owner;
  }

  lemma OverwrittenOthers(b: Book, k: Str, d: Str)
    requires Sound(b) && k in b.at && FREE_OFF in b.lists
    ensures Undisturbed(b, Overwritten(b, k, d), k)
    ensures FREE_OFF in Overwritten(b, k, d).lists
    ensures Count(Overwritten(b, k, d)) == Count(b)
  {
    hide WellLinked, Addressed, HashCell, HashSum;
    Distinct(b);
  }

  // ----- the sizes on the free list -----

  function Sizes(geo: map<nat, Slot>, s: seq<nat>): (t: seq<(nat, nat)>)
    ensures |t| == |s|
  {
    seq(|s|, i requires 0 <= i < |s| => if s[i] in geo then (geo[s[i]].klen, geo[s[i]].dlen) else (0, 0))
  }

  // Key and data lengths of the free records; all that a store looks at.
  ghost function FreeSizes(b: Book): multiset<(nat, nat)> {
    if FREE_OFF in b.lists then multiset(Sizes(b.img.geo, b.lists[FREE_OFF])) else multiset{}
  }

  lemma WithoutOne<T>(s: seq<T>, j: nat)
    requires j < |s|
    ensures s[j] in multiset(s) && multiset(Without(s, j)) == multiset(s) - multiset{s[j]}
  {
    assert s == s[..j] + [s[j]] + s[j + 1..];
  }

  lemma DeletedFree(b: Book, k: Str, i: nat)
    requires Standing(b, k, i)
    ensures var s := b.img.geo[b.at[k]];
      FreeSizes(Deleted(b, k, i)) == FreeSizes(b) + multiset{(s.klen, s.dlen)}
  {
    hide HashSum, MovePtr;
    var x, free := b.at[k], b.lists[FREE_OFF];
    assert HashCell(k) != FREE_OFF;
    assert Deleted(b, k, i).lists[FREE_OFF] == [x] + free;
    assert Sizes(b.img.geo, [x] + free) == [(b.img.geo[x].klen, b.img.geo[x].dlen)] + Sizes(b.img.geo, free);
  }

  lemma ReusedFree(b: Book, j: nat, k: Str, d: Str)
    requires Fits(b, j, k, d)
    ensures (|k|, |d| + 1) in FreeSizes(b)
    ensures FreeSizes(Reused(b, j, k, d)) == FreeSizes(b) - multiset{(|k|, |d| + 1)}
  {
    hide HashSum, MovePtr;
    var free := b.lists[FREE_OFF];
    assert HashCell(k) != FREE_OFF;
    assert Reused(b, j, k, d).lists[FREE_OFF] == Without(free, j);
    assert Sizes(b.img.geo, Without(free, j)) == Without(Sizes(b.img.geo, free), j);
    WithoutOne(Sizes(b.img.geo, free), j);
  }

  lemma AppendedFree(b: Book, x: nat, s: Slot, k: Str, d: Str)
    requires Sound(b) && x !in b.img.geo
    requires HashCell(k) in b.img.ptr && HashCell(k) in b.lists
    ensures FreeSizes(Appended(b, x, s, k, d)) == FreeSizes(b)
  {
    hide HashSum, PushPtr, Sound;
    assert HashCell(k) != FREE_OFF;
    FreeInside(b);
    var free := b.lists[FREE_OFF];
    assert Sizes(b.img.geo[x := s], free) == Sizes(b.img.geo, free);
  }

  lemma FreeInside(b: Book)
    requires Sound(b)
    ensures FREE_OFF in b.lists
    ensures forall i :: 0 <= i < |b.lists[FREE_OFF]| ==> b.lists[FREE_OFF][i] in b.img.geo
  {
    hide Filed;
    HeadIsCell(b.img.ptr, b.lists, b.owner, FREE_OFF);
    forall i | 0 <= i < |b.lists[FREE_OFF]|
      ensures b.lists[FREE_OFF][i] in b.img.geo
    {
      Reachable(b.img.ptr, b.lists, b.owner, FREE_OFF, i);
    }
  }

  lemma OverwrittenFree(b: Book, k: Str, d: Str)
    requires k in b.at
    ensures FreeSizes(Overwritten(b, k, d)) == FreeSizes(b)
  {
  }
}
