/**
 The 4096-byte page of member-jihyun: a header of four 32-bit integers and a payload
 of length-prefixed records.  This module gives the meaning of a page as a value; the
 class that the buffer cache hands out pointers to is in PageObjects.
 */
module Pages {
  import opened Machine

  const PAGE_SIZE: uint32 := 4096
  const PAYLOAD_SIZE: uint32 := 4080
  const NO_PAGE: uint32 := 0xffff_ffff

  type Record = seq<byte>

  datatype RawPage = RawPage(pageId: uint32, nextPageId: uint32, rowCount: uint32, usedBytes: uint32,
                             payload: seq<byte>)

  type Page = p: RawPage | |p.payload| == PAYLOAD_SIZE
    witness RawPage(0, 0, 0, 0, Zeros(4080))

  function Zeros(n: nat): (z: seq<byte>)
    ensures |z| == n && forall i :: 0 <= i < n ==> z[i] == 0
  {
    seq(n, _ => 0)
  }

  /** A hole that the file system fills when a file is extended by writing past its end. */
  const ZERO_PAGE: Page := RawPage(0, 0, 0, 0, Zeros(PAYLOAD_SIZE))

  function PageInit(pid: uint32): Page {
    ZERO_PAGE.(pageId := pid, nextPageId := NO_PAGE)
  }

  /** The room test, in the wrapping arithmetic of the code. */
  predicate CanStore(usedBytes: uint32, len: uint32) {
    Add32(usedBytes, Add32(4, len)) <= PAYLOAD_SIZE
  }

  /** Bytes written into the payload at `off`. */
  function Splice(payload: seq<byte>, off: nat, bytes: seq<byte>): (r: seq<byte>)
    requires off + |bytes| <= |payload|
    ensures |r| == |payload|
  {
    payload[..off] + bytes + payload[off + |bytes|..]
  }

  function AppendRecord(p: Page, rec: Record): Page
    requires p.usedBytes + 4 + |rec| <= PAYLOAD_SIZE
  {
    p.(usedBytes := Add32(p.usedBytes, Add32(4, |rec|)),
       rowCount := Add32(p.rowCount, 1),
       payload := Splice(p.payload, p.usedBytes, Prefixed(rec)))
  }

  /** How many bytes the records occupy, and which. */
  function Encode(recs: seq<Record>): seq<byte> {
    if recs == [] then [] else Prefixed(recs[0]) + Encode(recs[1..])
  }

  /** A record behind its length. */
  function Prefixed(rec: Record): (bytes: seq<byte>)
    ensures |bytes| == 4 + |rec|
  {
    Le32(Cast32(|rec|)) + rec
  }

  /**
   What repeated steps of the page cursor yield from a given cursor position.  A length
   prefix that points outside the payload ends the enumeration; the code would read on.
   */
  function RecordsFrom(p: Page, offset: nat, yielded: nat): seq<Record>
    decreases p.rowCount - yielded
  {
    if yielded >= p.rowCount || offset >= p.usedBytes || offset + 4 > PAYLOAD_SIZE then []
    else
      var len := FromLe32(p.payload[offset..offset + 4]);
      if offset + 4 + len > PAYLOAD_SIZE then []
      else [p.payload[offset + 4..offset + 4 + len]] + RecordsFrom(p, offset + 4 + len, yielded + 1)
  }

  function RecordsOf(p: Page): seq<Record> {
    RecordsFrom(p, 0, 0)
  }

  /** The page is exactly the result of appending `recs` to an empty page. */
  ghost predicate Holds(p: Page, recs: seq<Record>) {
    && p.rowCount == |recs|
    && p.usedBytes == |Encode(recs)| <= PAYLOAD_SIZE
    && p.payload[..p.usedBytes] == Encode(recs)
  }

  // ---------- the room test ----------

  /** The wrapping test answers the intended question exactly when the sum does not wrap into the payload range. */
  lemma CanStoreExact(usedBytes: uint32, len: uint32)
    requires usedBytes <= PAYLOAD_SIZE
    ensures (CanStore(usedBytes, len) <==> usedBytes + 4 + len <= PAYLOAD_SIZE)
       <==> (usedBytes + 4 + len < TWO_32 || usedBytes + 4 + len - TWO_32 > PAYLOAD_SIZE)
  {
    var sum := usedBytes + 4 + len;
    if 4 + len < TWO_32 {
      assert Add32(4, len) == 4 + len;
      if sum >= TWO_32 {
        assert Add32(usedBytes, 4 + len) == sum - TWO_32;
      }
    } else {
      assert Add32(4, len) == 4 + len - TWO_32;
      assert Add32(usedBytes, 4 + len - TWO_32) == sum - TWO_32;
    }
  }

  // ---------- encoding ----------

  lemma {:induction false} EncodeConcat(a: seq<Record>, b: seq<Record>)
    ensures Encode(a + b) == Encode(a) + Encode(b)
  {
    if a == [] {
      assert a + b == b;
    } else {
      assert (a + b)[1..] == a[1..] + b;
      EncodeConcat(a[1..], b);
    }
  }

  lemma Reassociate(a: seq<byte>, b: seq<byte>, c: seq<byte>)
    ensures a + (b + c) == a + b + c
  {
  }

  lemma EncodeSplit(recs: seq<Record>, k: nat)
    requires k < |recs|
    ensures Encode(recs) == Encode(recs[..k]) + Prefixed(recs[k]) + Encode(recs[k + 1..])
  {
    var rest := recs[k..];
    assert recs == recs[..k] + rest;
    EncodeConcat(recs[..k], rest);
    assert rest == [recs[k]] + recs[k + 1..];
    Reassociate(Encode(recs[..k]), Prefixed(recs[k]), Encode(recs[k + 1..]));
  }

  /** The two parts that follow a prefix `a` inside the first `n` bytes of a payload. */
  lemma PartsInPrefix(payload: seq<byte>, n: nat, a: seq<byte>, b: seq<byte>, c: seq<byte>, d: seq<byte>)
    requires n <= |payload| && payload[..n] == a + (b + c) + d
    ensures |a| + |b| + |c| <= n
    ensures payload[|a|..|a| + |b|] == b
    ensures payload[|a| + |b|..|a| + |b| + |c|] == c
  {
    var all := payload[..n];
    assert |all| == |a| + |b| + |c| + |d|;
    assert payload[|a|..|a| + |b|] == all[|a|..|a| + |b|];
    assert payload[|a| + |b|..|a| + |b| + |c|] == all[|a| + |b|..|a| + |b| + |c|];
  }

  lemma PrefixReadsBack(rec: Record)
    requires |rec| < TWO_32
    ensures FromLe32(Le32(Cast32(|rec|))) == |rec|
  {
    hide Le32, FromLe32;
    Le32RoundTrip(|rec|);
  }

  lemma PrefixWritesBack(prefix: seq<byte>, n: nat)
    requires |prefix| == 4 && FromLe32(prefix) == n
    ensures Le32(Cast32(n)) == prefix
  {
    hide Le32, FromLe32;
    FromLe32RoundTrip(prefix);
  }

  lemma RecordIsShort(p: Page, recs: seq<Record>, k: nat)
    requires Holds(p, recs) && k < |recs|
    ensures |recs[k]| < PAYLOAD_SIZE
  {
    EncodeSplit(recs, k);
  }

  /** Where record k sits in a page, and that its length prefix reads back. */
  lemma RecordPosition(p: Page, recs: seq<Record>, k: nat)
    requires Holds(p, recs) && k < |recs|
    ensures var off := |Encode(recs[..k])|;
            && off + 4 + |recs[k]| <= p.usedBytes
            && FromLe32(p.payload[off..off + 4]) == |recs[k]|
            && p.payload[off + 4..off + 4 + |recs[k]|] == recs[k]
  {
    RecordIsShort(p, recs, k);
    PrefixReadsBack(recs[k]);
    EncodeSplit(recs, k);
    PartsInPrefix(p.payload, p.usedBytes, Encode(recs[..k]), Le32(Cast32(|recs[k]|)), recs[k], Encode(recs[k + 1..]));
  }

  lemma EncodeTakeStep(recs: seq<Record>, k: nat)
    requires k < |recs|
    ensures Encode(recs[..k + 1]) == Encode(recs[..k]) + Prefixed(recs[k])
    ensures |Encode(recs[..k + 1])| == |Encode(recs[..k])| + 4 + |recs[k]| <= |Encode(recs)|
  {
    assert recs[..k + 1] == recs[..k] + [recs[k]];
    EncodeConcat(recs[..k], [recs[k]]);
    EncodeSplit(recs, k);
  }

  /** One step of the cursor, from the position of record k to that of record k + 1. */
  lemma CursorStep(p: Page, recs: seq<Record>, k: nat)
    requires Holds(p, recs) && k < |recs|
    ensures RecordsFrom(p, |Encode(recs[..k])|, k) == [recs[k]] + RecordsFrom(p, |Encode(recs[..k + 1])|, k + 1)
  {
    hide Encode, FromLe32;
    RecordPosition(p, recs, k);
    EncodeTakeStep(recs, k);
  }

  lemma {:induction false} CursorYields(p: Page, recs: seq<Record>, k: nat)
    requires Holds(p, recs) && k <= |recs|
    ensures RecordsFrom(p, |Encode(recs[..k])|, k) == recs[k..]
    decreases |recs| - k
  {
    if k < |recs| {
      CursorStep(p, recs, k);
      CursorYields(p, recs, k + 1);
    }
  }

  /** Reading a page back gives the records that were appended, in order. */
  lemma HoldsReadsBack(p: Page, recs: seq<Record>)
    requires Holds(p, recs)
    ensures RecordsOf(p) == recs
  {
    CursorYields(p, recs, 0);
    assert recs[0..] == recs && recs[..0] == [];
  }

  lemma EmptyPagesHoldNothing(pid: uint32)
    ensures Holds(ZERO_PAGE, []) && Holds(PageInit(pid), [])
    ensures RecordsOf(ZERO_PAGE) == [] && RecordsOf(PageInit(pid)) == []
  {
    HoldsReadsBack(ZERO_PAGE, []);
    HoldsReadsBack(PageInit(pid), []);
  }

  lemma {:induction false} EncodeAtLeastFour(recs: seq<Record>)
    ensures 4 * |recs| <= |Encode(recs)|
  {
    if recs != [] {
      EncodeAtLeastFour(recs[1..]);
    }
  }

  lemma AppendHolds(p: Page, recs: seq<Record>, rec: Record)
    requires Holds(p, recs)
    requires p.usedBytes + 4 + |rec| <= PAYLOAD_SIZE
    ensures Holds(AppendRecord(p, rec), recs + [rec])
  {
    EncodeConcat(recs, [rec]);
    EncodeAtLeastFour(recs);
    AppendCounters(p, rec);
  }

  lemma AppendCounters(p: Page, rec: Record)
    requires p.usedBytes + 4 + |rec| <= PAYLOAD_SIZE && 4 * p.rowCount <= p.usedBytes
    ensures AppendRecord(p, rec).usedBytes == p.usedBytes + 4 + |rec|
    ensures AppendRecord(p, rec).rowCount == p.rowCount + 1
  {
    hide Splice, Prefixed;
  }
}
