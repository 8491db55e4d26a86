/** The job descriptor byte layout the device reads:
    `[count: 1 byte][count x 7 little-endian u64 fields][kernel name bytes]`.
    Each record carries renamed id, renamed dst, start address, end address,
    element size, access type and addressing mode, in that order. */
module Wire {
  import opened Bytes
  import opened Results

  const FIELD_BYTES: nat := 8
  const FIELDS_PER_RECORD: nat := 7
  const RECORD_BYTES: nat := 56

  datatype WireRecord = WireRecord(
    id: u64, dst: u64, start: u64, end: u64,
    elementSize: u64, accessType: u64, addressingMode: u64)

  /** The seven fields of a record, in wire order. */
  function Fields(r: WireRecord): (fs: seq<u64>)
    ensures |fs| == FIELDS_PER_RECORD
  {
    [r.id, r.dst, r.start, r.end, r.elementSize, r.accessType, r.addressingMode]
  }

  /** `addToJobDescriptor` applied to each value in turn: 8 little-endian
      bytes per value. */
  function EncodeFields(fs: seq<u64>): (s: seq<byte>)
    ensures |s| == 8 * |fs|
    decreases |fs|
  {
    if |fs| == 0 then [] else Le64(fs[0]) + EncodeFields(fs[1..])
  }

  /** Value k sits in bytes [8 k, 8 (k + 1)). */
  lemma {:induction false} EncodeFieldsSlice(fs: seq<u64>, k: nat)
    requires k < |fs|
    ensures EncodeFields(fs)[8 * k .. 8 * (k + 1)] == Le64(fs[k])
    decreases |fs|
  {
    var rest := EncodeFields(fs[1..]);
    assert EncodeFields(fs) == Le64(fs[0]) + rest;
    if k > 0 {
      EncodeFieldsSlice(fs[1..], k - 1);
      assert EncodeFields(fs)[8 * k .. 8 * (k + 1)] == rest[8 * (k - 1) .. 8 * k];
    }
  }

  /** Reads n values back. */
  function DecodeFields(s: seq<byte>, n: nat): (fs: seq<u64>)
    requires |s| == 8 * n
    ensures |fs| == n
    ensures EncodeFields(fs) == s
    decreases n
  {
    if n == 0 then []
    else
      var fs := [DecodeLe64(s[..8])] + DecodeFields(s[8..], n - 1);
      assert fs[1..] == DecodeFields(s[8..], n - 1);
      assert s == s[..8] + s[8..];
      fs
  }

  /** Equal encodings of equally many values come from equal values. */
  lemma {:induction false} EncodeFieldsInjective(xs: seq<u64>, ys: seq<u64>)
    requires |xs| == |ys| && EncodeFields(xs) == EncodeFields(ys)
    ensures xs == ys
    decreases |xs|
  {
    if |xs| > 0 {
      var ex := EncodeFields(xs);
      assert ex == Le64(xs[0]) + EncodeFields(xs[1..]);
      assert EncodeFields(ys) == Le64(ys[0]) + EncodeFields(ys[1..]);
      assert ex[..8] == Le64(xs[0]) && ex[..8] == Le64(ys[0]);
      assert ex[8..] == EncodeFields(xs[1..]) && ex[8..] == EncodeFields(ys[1..]);
      Le64Injective(xs[0], ys[0]);
      EncodeFieldsInjective(xs[1..], ys[1..]);
      assert xs == [xs[0]] + xs[1..] && ys == [ys[0]] + ys[1..];
    }
  }

  /** Seven consecutive `addToJobDescriptor` calls. */
  function EncodeRecord(r: WireRecord): (s: seq<byte>)
    ensures |s| == 56
  {
    EncodeFields(Fields(r))
  }

  /** Field k of a record sits little-endian in bytes [8 k, 8 (k + 1)). */
  lemma EncodeRecordFields(r: WireRecord, k: nat)
    requires k < FIELDS_PER_RECORD
    ensures EncodeRecord(r)[8 * k .. 8 * (k + 1)] == Le64(Fields(r)[k])
  {
    EncodeFieldsSlice(Fields(r), k);
  }

  function DecodeRecord(s: seq<byte>): (r: WireRecord)
    requires |s| == 56
    ensures EncodeRecord(r) == s
  {
    var fs := DecodeFields(s, FIELDS_PER_RECORD);
    var r := WireRecord(fs[0], fs[1], fs[2], fs[3], fs[4], fs[5], fs[6]);
    assert Fields(r) == fs;
    r
  }

  lemma DecodeEncodeRecord(r: WireRecord)
    ensures DecodeRecord(EncodeRecord(r)) == r
  {
    var r' := DecodeRecord(EncodeRecord(r));
    EncodeFieldsInjective(Fields(r'), Fields(r));
    assert Fields(r')[0] == Fields(r)[0] && Fields(r')[1] == Fields(r)[1];
    assert Fields(r')[2] == Fields(r)[2] && Fields(r')[3] == Fields(r)[3];
    assert Fields(r')[4] == Fields(r)[4] && Fields(r')[5] == Fields(r)[5];
    assert Fields(r')[6] == Fields(r)[6];
  }

  /** The records back to back. */
  function EncodeRecords(rs: seq<WireRecord>): (s: seq<byte>)
    ensures |s| == 56 * |rs|
  {
    if |rs| == 0 then [] else EncodeRecord(rs[0]) + EncodeRecords(rs[1..])
  }

  /** Record i occupies bytes [56 i, 56 (i + 1)) of the concatenation. */
  lemma {:induction false} EncodeRecordsSlice(rs: seq<WireRecord>, i: nat)
    requires i < |rs|
    ensures EncodeRecords(rs)[56 * i .. 56 * (i + 1)] == EncodeRecord(rs[i])
  {
    var head := EncodeRecord(rs[0]);
    var tail := EncodeRecords(rs[1..]);
    assert EncodeRecords(rs) == head + tail;
    if i > 0 {
      EncodeRecordsSlice(rs[1..], i - 1);
      assert (head + tail)[56 * i .. 56 * (i + 1)] == tail[56 * (i - 1) .. 56 * i];
    }
  }

  /** Reads n records back, each from its 56 bytes. */
  function DecodeRecords(s: seq<byte>, n: nat): (rs: seq<WireRecord>)
    requires |s| == 56 * n
    ensures |rs| == n
  {
    if n == 0 then [] else [DecodeRecord(s[..56])] + DecodeRecords(s[56..], n - 1)
  }

  /** Prepending a record prepends its encoding. */
  lemma EncodeRecordsCons(r: WireRecord, rest: seq<WireRecord>)
    ensures EncodeRecords([r] + rest) == EncodeRecord(r) + EncodeRecords(rest)
  {
    assert ([r] + rest)[0] == r && ([r] + rest)[1..] == rest;
  }

  /** The decoded records encode back to the bytes they came from. */
  lemma {:induction false} EncodeDecodeRecords(s: seq<byte>, n: nat)
    requires |s| == 56 * n
    ensures EncodeRecords(DecodeRecords(s, n)) == s
  {
    if n > 0 {
      var head := s[..56];
      var tail := s[56..];
      var r := DecodeRecord(head);
      var rest := DecodeRecords(tail, n - 1);
      assert DecodeRecords(s, n) == [r] + rest;
      EncodeDecodeRecords(tail, n - 1);
      EncodeRecordsCons(r, rest);
      assert s == head + tail;
    }
  }

  /** Record lists with the same encoding are equal. */
  lemma {:induction false} EncodeRecordsInjective(xs: seq<WireRecord>, ys: seq<WireRecord>)
    requires EncodeRecords(xs) == EncodeRecords(ys)
    ensures xs == ys
    decreases |xs|
  {
    if |xs| > 0 {
      var e := EncodeRecords(xs);
      assert e == EncodeRecord(xs[0]) + EncodeRecords(xs[1..]);
      assert e == EncodeRecord(ys[0]) + EncodeRecords(ys[1..]);
      assert e[..56] == EncodeRecord(xs[0]) && e[..56] == EncodeRecord(ys[0]);
      assert e[56..] == EncodeRecords(xs[1..]) && e[56..] == EncodeRecords(ys[1..]);
      EncodeRecordsInjective(xs[1..], ys[1..]);
      DecodeEncodeRecord(xs[0]);
      DecodeEncodeRecord(ys[0]);
      assert xs == [xs[0]] + xs[1..] && ys == [ys[0]] + ys[1..];
    }
  }

  /** Decoding the encoded records gives them back. */
  lemma DecodeEncodeRecords(rs: seq<WireRecord>)
    ensures DecodeRecords(EncodeRecords(rs), |rs|) == rs
  {
    EncodeDecodeRecords(EncodeRecords(rs), |rs|);
    EncodeRecordsInjective(DecodeRecords(EncodeRecords(rs), |rs|), rs);
  }

  /** `getJobDescriptor`'s layout: the record count stored through a `uint8_t`
      (so it is the count modulo 256), the records, then the name unterminated. */
  function EncodeJob(rs: seq<WireRecord>, name: seq<byte>): (s: seq<byte>)
    ensures |s| == 1 + 56 * |rs| + |name|
    ensures s[0] == |rs| % 256
  {
    [(|rs| % 256) as byte] + EncodeRecords(rs) + name
  }

  /** Record i of the job occupies bytes [1 + 56 i, 1 + 56 (i + 1)). */
  lemma EncodeJobRecord(rs: seq<WireRecord>, name: seq<byte>, i: nat)
    requires i < |rs|
    ensures EncodeJob(rs, name)[1 + 56 * i .. 1 + 56 * (i + 1)] == EncodeRecord(rs[i])
  {
    var s := EncodeJob(rs, name);
    EncodeRecordsSlice(rs, i);
    assert s[1 + 56 * i .. 1 + 56 * (i + 1)] == EncodeRecords(rs)[56 * i .. 56 * (i + 1)];
  }

  /** The name follows the last record, unterminated. */
  lemma EncodeJobName(rs: seq<WireRecord>, name: seq<byte>)
    ensures EncodeJob(rs, name)[1 + 56 * |rs|..] == name
  {
  }

  lemma EncodeJobUnfold(rs: seq<WireRecord>, name: seq<byte>)
    ensures EncodeJob(rs, name) == [(|rs| % 256) as byte] + EncodeRecords(rs) + name
  {
  }

  datatype DecodedJob = DecodedJob(records: seq<WireRecord>, name: seq<byte>)

  /** What the device side reads back: the count byte tells how many records
      follow, and whatever is left is the name. A buffer too short for the
      announced records does not decode. */
  function DecodeJob(s: seq<byte>): (r: Option<DecodedJob>)
    ensures r.Some? <==> |s| >= 1 && |s| >= 1 + 56 * (s[0] as int)
    ensures r.Some? ==>
      && |r.value.records| == s[0] as int
      && r.value.name == s[1 + 56 * |r.value.records|..]
  {
    if |s| == 0 || |s| < 1 + 56 * (s[0] as int) then None
    else Some(DecodedJob(DecodeRecords(s[1..1 + 56 * (s[0] as int)], s[0] as int), s[1 + 56 * (s[0] as int)..]))
  }

  /** The decoded records are the ones whose encoding fills the bytes after
      the count. */
  lemma DecodeJobRecords(s: seq<byte>)
    requires DecodeJob(s).Some?
    ensures EncodeRecords(DecodeJob(s).value.records) == s[1..1 + 56 * |DecodeJob(s).value.records|]
  {
    EncodeDecodeRecords(s[1..1 + 56 * (s[0] as int)], s[0] as int);
  }

  /** Every buffer that decodes is the encoding of what it decodes to. */
  lemma EncodeDecodedJob(s: seq<byte>)
    requires DecodeJob(s).Some?
    ensures EncodeJob(DecodeJob(s).value.records, DecodeJob(s).value.name) == s
  {
    var d := DecodeJob(s).value;
    DecodeJobRecords(s);
    SplitJobBuffer(s, |d.records|);
    EncodeJobOfParts(s, d.records, d.name, EncodeRecords(d.records));
  }

  lemma EncodeJobOfParts(s: seq<byte>, rs: seq<WireRecord>, name: seq<byte>, body: seq<byte>)
    requires |s| >= 1 && |rs| == s[0] as int && EncodeRecords(rs) == body
    requires s == [s[0]] + body + name
    ensures EncodeJob(rs, name) == s
  {
    assert [(|rs| % 256) as byte] == [s[0]];
    EncodeJobUnfold(rs, name);
  }

  lemma SplitJobBuffer(s: seq<byte>, n: nat)
    requires |s| >= 1 + 56 * n
    ensures s == [s[0]] + s[1..1 + 56 * n] + s[1 + 56 * n..]
  {
  }

  /** A job with fewer than 256 records decodes to exactly its records and name. */
  lemma {:induction false} DecodeEncodeJob(rs: seq<WireRecord>, name: seq<byte>)
    requires |rs| < 256
    ensures DecodeJob(EncodeJob(rs, name)) == Some(DecodedJob(rs, name))
  {
    var s := EncodeJob(rs, name);
    EncodeJobParts(rs, name);
    assert s[0] as int == |rs|;
    assert DecodeJob(s).Some?;
    var d := DecodeJob(s).value;
    assert |d.records| == |rs|;
    DecodeJobRecords(s);
    assert EncodeRecords(d.records) == EncodeRecords(rs);
    EncodeRecordsInjective(d.records, rs);
    assert d.name == name;
  }

  /** The records block and the name, as slices of the encoded job. */
  lemma EncodeJobParts(rs: seq<WireRecord>, name: seq<byte>)
    ensures EncodeJob(rs, name)[1..1 + 56 * |rs|] == EncodeRecords(rs)
    ensures EncodeJob(rs, name)[1 + 56 * |rs|..] == name
  {
    EncodeJobUnfold(rs, name);
  }

  /** With 256 or more records the count byte wraps, so what the device reads
      back is a different job: the first |rs| mod 256 records and a "name" that
      swallows the remaining record bytes. */
  lemma {:induction false} EncodeJobCountWraps(rs: seq<WireRecord>, name: seq<byte>)
    requires |rs| >= 256
    ensures DecodeJob(EncodeJob(rs, name)).Some?
    ensures DecodeJob(EncodeJob(rs, name)).value.records == rs[..|rs| % 256]
    ensures DecodeJob(EncodeJob(rs, name)) != Some(DecodedJob(rs, name))
  {
    var s := EncodeJob(rs, name);
    var m := |rs| % 256;
    var d := DecodeJob(s).value;
    DecodeJobRecords(s);
    assert |d.records| == m;
    EncodeJobParts(rs, name);
    SliceOfSlice(s, 1, 1 + 56 * |rs|, 56 * m);
    EncodeRecordsPrefix(rs, m);
    EncodeRecordsInjective(d.records, rs[..m]);
  }

  lemma SliceOfSlice<T>(s: seq<T>, lo: nat, hi: nat, k: nat)
    requires lo + k <= hi <= |s|
    ensures s[lo..hi][..k] == s[lo..lo + k]
  {
  }

  /** The first m records encode to the first 56 m bytes. */
  lemma {:induction false} EncodeRecordsPrefix(rs: seq<WireRecord>, m: nat)
    requires m <= |rs|
    ensures EncodeRecords(rs)[..56 * m] == EncodeRecords(rs[..m])
  {
    if m > 0 {
      var head := EncodeRecord(rs[0]);
      var tail := EncodeRecords(rs[1..]);
      assert EncodeRecords(rs) == head + tail;
      EncodeRecordsPrefix(rs[1..], m - 1);
      assert rs[..m][0] == rs[0] && rs[..m][1..] == rs[1..][..m - 1];
      assert EncodeRecords(rs[..m]) == head + EncodeRecords(rs[1..][..m - 1]);
      assert (head + tail)[..56 * m] == head + tail[..56 * (m - 1)];
    }
  }
}
