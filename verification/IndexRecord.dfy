// The index record "ptr(6) len(4) key:datoff:datlen\n": how _db_writeidx prints one
// and how _db_readidx parses one out of arbitrary file contents.

module IndexRecord {
  import opened Wrappers
  import opened Bytes

  const PTR_SZ := 6
  const IDXLEN_SZ := 4
  const PTR_MAX := 999999
  const IDXLEN_MIN := 6
  const IDXLEN_MAX := 1024
  const DATLEN_MIN := 2
  const DATLEN_MAX := 1024

  // What never changes about a record once it has been appended.
  datatype Slot = Slot(klen: nat, datoff: nat, dlen: nat, len: nat)

  // What _db_readidx learns from a record.
  datatype Entry = Entry(ptr: int, len: nat, key: Str, datoff: nat, datlen: nat)

  function Tail(datoff: nat, dlen: nat): (t: Str)
    ensures |t| >= 5
    ensures t[|t| - 1] == NEWLINE
  {
    [SEP] + Decimal(datoff) + [SEP] + Decimal(dlen) + [NEWLINE]
  }

  function NewSlot(klen: nat, datoff: nat, dlen: nat): Slot {
    Slot(klen, datoff, dlen, klen + |Tail(datoff, dlen)|)
  }

  // The length field agrees with the text, and the text has a legal length.
  predicate Proper(s: Slot) {
    && IDXLEN_MIN <= s.len
    && DATLEN_MIN <= s.dlen <= DATLEN_MAX
    && s == NewSlot(s.klen, s.datoff, s.dlen)
    && s.len <= IDXLEN_MAX
  }

  function Size(s: Slot): nat {
    PTR_SZ + IDXLEN_SZ + s.len
  }

  // The bytes _db_writeidx puts in the file.
  function Encode(ptr: nat, key: Str, s: Slot): (bs: Str)
    ensures ptr <= PTR_MAX && |key| == s.klen && Proper(s) ==> |bs| == Size(s)
  {
    assert ptr <= PTR_MAX && s.len <= IDXLEN_MAX ==>
      |Pad(ptr, PTR_SZ)| == PTR_SZ && |Pad(s.len, IDXLEN_SZ)| == IDXLEN_SZ
    by {
      if ptr <= PTR_MAX && s.len <= IDXLEN_MAX {
        PadWidths(ptr, s.len);
      }
    }
    Pad(ptr, PTR_SZ) + Pad(s.len, IDXLEN_SZ) + (key + Tail(s.datoff, s.dlen))
  }

  lemma PadWidths(ptr: nat, len: nat)
    requires ptr <= PTR_MAX && len <= IDXLEN_MAX
    ensures |Pad(ptr, PTR_SZ)| == PTR_SZ
    ensures |Pad(len, IDXLEN_SZ)| == IDXLEN_SZ
  {
    PadLength(ptr, PTR_SZ);
    PadLength(len, IDXLEN_SZ);
    assert Pow10(6) == 1000000 && Pow10(4) == 10000 by {
      assert Pow10(1) == 10 && Pow10(2) == 100 && Pow10(3) == 1000;
      assert Pow10(4) == 10000 && Pow10(5) == 100000;
    }
  }

  predicate ProperKey(k: Str) {
    NUL !in k && SEP !in k
  }

  // The body of a record, split at its two separators.
  function ParseBody(ptr: int, len: nat, body: Str): Option<Entry> {
    var p := IndexOf(body, SEP);
    if p == |body| then None
    else
      var rest := body[p + 1..];
      var q := IndexOf(rest, SEP);
      if q == |rest| || SEP in rest[q + 1..] then None
      else
        var off := Atol(rest[..q]);
        var dlen := Atol(rest[q + 1..]);
        if off < 0 || dlen <= 0 || dlen > DATLEN_MAX then None
        else Some(Entry(ptr, len, body[..p], off, dlen))
  }

  function ParseIdx(idx: Str, at: nat): Option<Entry> {
    if at + PTR_SZ + IDXLEN_SZ > |idx| then None
    else
      var start := at + PTR_SZ + IDXLEN_SZ;
      var len := Atol(idx[at + PTR_SZ..start]);
      if len < IDXLEN_MIN || len > IDXLEN_MAX || start + len > |idx| then None
      else
        var body := idx[start..start + len];
        if body[len - 1] != NEWLINE then None
        else ParseBody(Atol(idx[at..at + PTR_SZ]), len, CString(body[..len - 1]))
  }

  lemma DecimalPlain(n: nat)
    ensures SEP !in Decimal(n) && NUL !in Decimal(n)
  {
  }

  lemma ParseBodyEncoded(ptr: int, len: nat, key: Str, s: Slot)
    requires ProperKey(key) && 0 < s.dlen <= DATLEN_MAX
    ensures ParseBody(ptr, len, key + [SEP] + Decimal(s.datoff) + [SEP] + Decimal(s.dlen))
         == Some(Entry(ptr, len, key, s.datoff, s.dlen))
  {
    var a, b := Decimal(s.datoff), Decimal(s.dlen);
    var body := key + [SEP] + a + [SEP] + b;
    var rest := a + [SEP] + b;
    DecimalPlain(s.datoff);
    DecimalPlain(s.dlen);
    assert body == key + [SEP] + rest;
    IndexOfAfter(key, SEP, rest);
    assert body[|key| + 1..] == rest && body[..|key|] == key;
    IndexOfAfter(a, SEP, b);
    assert rest[|a| + 1..] == b && rest[..|a|] == a;
    AtolPlain(s.datoff);
    AtolPlain(s.dlen);
  }

  // The fields of a record found at `at`.
  ghost predicate RecordAt(idx: Str, at: nat, ptr: nat, key: Str, s: Slot) {
    && |key| == s.klen
    && at + Size(s) <= |idx|
    && idx[at..at + PTR_SZ] == Pad(ptr, PTR_SZ)
    && idx[at + PTR_SZ..at + PTR_SZ + IDXLEN_SZ] == Pad(s.len, IDXLEN_SZ)
    && idx[at + PTR_SZ + IDXLEN_SZ..at + Size(s)] == key + Tail(s.datoff, s.dlen)
  }

  // ParseIdx once its fields are known.
  lemma ParseFields(idx: Str, at: nat, len: nat, text: Str)
    requires IDXLEN_MIN <= len <= IDXLEN_MAX && at + PTR_SZ + IDXLEN_SZ + len <= |idx|
    requires Atol(idx[at + PTR_SZ..at + PTR_SZ + IDXLEN_SZ]) == len
    requires idx[at + PTR_SZ + IDXLEN_SZ..at + PTR_SZ + IDXLEN_SZ + len] == text + [NEWLINE]
    requires NUL !in text
    ensures ParseIdx(idx, at) == ParseBody(Atol(idx[at..at + PTR_SZ]), len, text)
  {
    hide ParseBody, Atol, CString;
    var body := idx[at + PTR_SZ + IDXLEN_SZ..at + PTR_SZ + IDXLEN_SZ + len];
    CStringWhole(text);
    assert body[..len - 1] == text;
  }

  // A written record reads back field for field, wherever it lies in the file.
  lemma ParseEncoded(idx: Str, at: nat, ptr: nat, key: Str, s: Slot)
    requires ProperKey(key) && Proper(s)
    requires RecordAt(idx, at, ptr, key, s)
    ensures ParseIdx(idx, at) == Some(Entry(ptr, s.len, key, s.datoff, s.dlen))
  {
    hide ParseIdx, ParseBody, Atol, Tail, Pad, Decimal;
    AtolPad(ptr, PTR_SZ);
    AtolPad(s.len, IDXLEN_SZ);
    var text := key + [SEP] + Decimal(s.datoff) + [SEP] + Decimal(s.dlen);
    TextOf(key, s);
    ParseBodyEncoded(ptr, s.len, key, s);
    ParseFields(idx, at, s.len, text);
  }

  lemma TextOf(key: Str, s: Slot)
    requires ProperKey(key)
    ensures var text := key + [SEP] + Decimal(s.datoff) + [SEP] + Decimal(s.dlen);
      key + Tail(s.datoff, s.dlen) == text + [NEWLINE] && NUL !in text
  {
    hide Decimal;
    DecimalPlain(s.datoff);
    DecimalPlain(s.dlen);
    var text := key + [SEP] + Decimal(s.datoff) + [SEP] + Decimal(s.dlen);
    assert key + Tail(s.datoff, s.dlen) == text + [NEWLINE];
  }

  // ----- the format in numbers -----

  // Six columns of pointer, four of length, then key:offset:length and a newline in ASCII.
  lemma RecordLayout(ptr: nat, key: Str, datoff: nat, dlen: nat)
    requires Proper(NewSlot(|key|, datoff, dlen)) && ptr <= PTR_MAX
    ensures var bs := Encode(ptr, key, NewSlot(|key|, datoff, dlen));
      && |bs| >= 10 && bs[..6] == Pad(ptr, 6) && bs[6..10] == Pad(|bs| - 10, 4)
      && bs[10..] == key + [58] + Decimal(datoff) + [58] + Decimal(dlen) + [10]
  {
    hide Pad;
    var s := NewSlot(|key|, datoff, dlen);
    PadWidths(ptr, s.len);
    var text := key + Tail(datoff, dlen);
    assert Encode(ptr, key, s) == Pad(ptr, 6) + Pad(s.len, 4) + text;
    assert text == key + [58] + Decimal(datoff) + [58] + Decimal(dlen) + [10];
  }

  // The record of "abc" at offset 0 of the data file, with 12 bytes there, before record 5.
  lemma RecordExample()
    ensures Encode(5, [97, 98, 99], NewSlot(3, 0, 12))
         == [32, 32, 32, 32, 32, 53, 32, 32, 32, 57, 97, 98, 99, 58, 48, 58, 49, 50, 10]
  {
    assert Decimal(1) == [49] && Decimal(12) == [49, 50];
    assert Pad(5, 6) == [32, 32, 32, 32, 32, 53] && Pad(9, 4) == [32, 32, 32, 57];
  }

  // ----- what the parser accepts -----

  ghost predicate ThreeParts(body: Str, a: Str, b: Str, c: Str) {
    body == a + [58] + b + [58] + c && 58 !in a && 58 !in b && 58 !in c
  }

  // A text is parsed exactly when it has three parts between two colons, the second a number
  // from 0 on and the third one from 1 to 1024.
  lemma ParseBodyExactlyWhen(ptr: int, len: nat, body: Str, e: Entry)
    ensures ParseBody(ptr, len, body) == Some(e) <==>
      exists a, b, c ::
        ThreeParts(body, a, b, c) && Atol(b) >= 0 && 1 <= Atol(c) <= 1024
        && e == Entry(ptr, len, a, Atol(b), Atol(c))
  {
    hide Atol, ParseBody, ThreeParts;
    if ParseBody(ptr, len, body) == Some(e) {
      var a, b, c := PartsFound(ptr, len, body);
    }
    forall a, b, c | ThreeParts(body, a, b, c)
      ensures ParseBody(ptr, len, body)
           == if Atol(b) >= 0 && 1 <= Atol(c) <= 1024 then Some(Entry(ptr, len, a, Atol(b), Atol(c))) else None
    {
      PartsParsed(ptr, len, body, a, b, c);
    }
  }

  lemma PartsFound(ptr: int, len: nat, body: Str) returns (a: Str, b: Str, c: Str)
    requires ParseBody(ptr, len, body).Some?
    ensures ThreeParts(body, a, b, c) && Atol(b) >= 0 && 1 <= Atol(c) <= 1024
    ensures ParseBody(ptr, len, body) == Some(Entry(ptr, len, a, Atol(b), Atol(c)))
  {
    hide Atol;
    var p := IndexOf(body, SEP);
    var rest := body[p + 1..];
    var q := IndexOf(rest, SEP);
    a, b, c := body[..p], rest[..q], rest[q + 1..];
    CutAt(body, p);
    CutAt(rest, q);
    Rejoined(a, b, c);
  }

  lemma CutAt(s: Str, n: nat)
    requires n < |s|
    ensures s == s[..n] + [s[n]] + s[n + 1..]
  {
  }

  lemma Rejoined(a: Str, b: Str, c: Str)
    ensures a + [58] + (b + [58] + c) == a + [58] + b + [58] + c
  {
  }

  lemma PartsParsed(ptr: int, len: nat, body: Str, a: Str, b: Str, c: Str)
    requires ThreeParts(body, a, b, c)
    ensures ParseBody(ptr, len, body)
         == if Atol(b) >= 0 && 1 <= Atol(c) <= 1024 then Some(Entry(ptr, len, a, Atol(b), Atol(c))) else None
  {
    hide Atol;
    var rest := b + [58] + c;
    assert body == a + [SEP] + rest;
    IndexOfAfter(a, SEP, rest);
    assert body[..|a|] == a && body[|a| + 1..] == rest;
    IndexOfAfter(b, SEP, c);
    assert rest[..|b|] == b && rest[|b| + 1..] == c;
  }

  // Six bytes, four bytes, a text and a newline at this offset of a file.
  ghost predicate FieldsAt(idx: Str, at: nat, p: Str, l: Str, text: Str) {
    && |p| == 6 && |l| == 4 && at + |text| + 11 <= |idx|
    && idx[at..at + |text| + 11] == p + l + text + [10]
  }

  // A record is read exactly where the four bytes say how long the text is with its newline, the
  // length is from 6 to 1024, and the text up to its first NUL is parsed.
  lemma ParseIdxExactlyWhen(idx: Str, at: nat, e: Entry)
    ensures ParseIdx(idx, at) == Some(e) <==>
      exists p, l, text ::
        FieldsAt(idx, at, p, l, text) && Atol(l) == |text| + 1 && 6 <= |text| + 1 <= 1024
        && ParseBody(Atol(p), |text| + 1, CString(text)) == Some(e)
  {
    hide Atol, ParseBody, CString, ParseIdx, FieldsAt;
    if ParseIdx(idx, at) == Some(e) {
      var p, l, text := FieldsFound(idx, at);
    }
    forall p, l, text | FieldsAt(idx, at, p, l, text) && Atol(l) == |text| + 1 && 6 <= |text| + 1 <= 1024
      ensures ParseIdx(idx, at) == ParseBody(Atol(p), |text| + 1, CString(text))
    {
      FieldsParsed(idx, at, p, l, text);
    }
  }

  lemma FieldsFound(idx: Str, at: nat) returns (p: Str, l: Str, text: Str)
    requires ParseIdx(idx, at).Some?
    ensures FieldsAt(idx, at, p, l, text) && Atol(l) == |text| + 1 && 6 <= |text| + 1 <= 1024
    ensures ParseIdx(idx, at) == ParseBody(Atol(p), |text| + 1, CString(text))
  {
    hide Atol, ParseBody, CString;
    var start := at + PTR_SZ + IDXLEN_SZ;
    p, l := idx[at..at + PTR_SZ], idx[at + PTR_SZ..start];
    var len := Atol(l);
    text := idx[start..start + len - 1];
    assert idx[start..start + len][..len - 1] == text;
    assert idx[at..at + |text| + 11] == p + l + text + [10];
  }

  lemma FieldsParsed(idx: Str, at: nat, p: Str, l: Str, text: Str)
    requires FieldsAt(idx, at, p, l, text) && Atol(l) == |text| + 1 && 6 <= |text| + 1 <= 1024
    ensures ParseIdx(idx, at) == ParseBody(Atol(p), |text| + 1, CString(text))
  {
    hide Atol, ParseBody, CString;
    var all := idx[at..at + |text| + 11];
    assert all == p + (l + (text + [10]));
    assert idx[at..at + 6] == all[..6] == p;
    assert all[6..] == l + (text + [10]) && all[6..][..4] == l && all[6..][4..] == text + [10];
    assert idx[at + 6..at + 10] == all[6..][..4];
    assert idx[at + 10..at + 11 + |text|] == all[6..][4..];
    assert (text + [10])[..|text|] == text;
  }
}
