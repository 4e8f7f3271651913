/**
 Pages as the objects that the cache hands out pointers to, and the cursor over one.
 Each method is proved against the page functions of module Pages.
 */
module PageObjects {
  import opened Machine
  import opened Pages
  import opened Memory

  class DataPage {
    var pageId: uint32
    var nextPageId: uint32
    var rowCount: uint32
    var usedBytes: uint32
    const payload: array<byte>

    constructor ()
      ensures Valid() && V() == ZERO_PAGE && fresh(payload)
    {
      pageId, nextPageId, rowCount, usedBytes := 0, 0, 0, 0;
      payload := new byte[4080](_ => 0);
      new;
      assert payload[..] == Zeros(PAYLOAD_SIZE);
    }

    predicate Valid() {
      payload.Length == PAYLOAD_SIZE
    }

    function V(): Page
      requires Valid()
      reads this, payload
    {
      RawPage(pageId, nextPageId, rowCount, usedBytes, payload[..])
    }

    method Init(pid: uint32)
      requires Valid()
      modifies this, payload
      ensures V() == PageInit(pid)
    {
      rowCount, usedBytes := 0, 0;
      MemZero(payload);
      pageId := pid;
      nextPageId := NO_PAGE;
    }

    /** The bytes of a page read from a file. */
    method CopyFrom(p: Page)
      requires Valid()
      modifies this, payload
      ensures V() == p
    {
      pageId, nextPageId, rowCount, usedBytes := p.pageId, p.nextPageId, p.rowCount, p.usedBytes;
      forall i | 0 <= i < payload.Length {
        payload[i] := p.payload[i];
      }
      assert payload[..] == p.payload;
    }

    /** The two copies of an append. */
    method CopyRecord(data: array<byte>, len: uint32)
      requires Valid() && len == data.Length && data != payload
      requires usedBytes as int + 4 + len <= PAYLOAD_SIZE
      modifies payload
      ensures payload[..] == Splice(old(payload[..]), usedBytes, Prefixed(data[..]))
    {
      hide Le32, Cast32;
      var offset: nat := usedBytes;
      MemCpy(payload, offset, Le32(len));
      offset := offset + 4;
      MemCpy(payload, offset, data[..]);
      CastIsSame(len);
    }

    /** The caller guarantees that the room test does not let a record pass because its sum wrapped. */
    method AppendRecord(data: array<byte>, len: uint32) returns (ok: bool)
      requires Valid() && len == data.Length && data != payload
      requires CanStore(usedBytes, len) ==> usedBytes as int + 4 + len <= PAYLOAD_SIZE
      modifies this, payload
      ensures ok <==> old(usedBytes) as int + 4 + len <= PAYLOAD_SIZE
      ensures V() == if ok then Pages.AppendRecord(old(V()), data[..]) else old(V())
    {
      hide Prefixed;
      if !CanStore(usedBytes, len) {
        return false;
      }
      CopyRecord(data, len);
      usedBytes := Add32(usedBytes, Add32(4, len));
      rowCount := Add32(rowCount, 1);
      return true;
    }
  }

  lemma CastIsSame(len: uint32)
    ensures Cast32(len) == len
  {
  }

  class PageCursor {
    const page: DataPage
    var offset: nat
    var yielded: nat
    ghost const recs: seq<Record>

    constructor (page: DataPage, ghost recs: seq<Record>)
      requires page.Valid() && Holds(page.V(), recs)
      ensures this.page == page && this.recs == recs && yielded == 0 && Valid()
    {
      this.page := page;
      this.recs := recs;
      offset := 0;
      yielded := 0;
    }

    /** The cursor stands behind the records it has yielded. */
    ghost predicate Valid()
      reads this, page, page.payload
    {
      && page.Valid() && Holds(page.V(), recs)
      && yielded <= |recs| && offset == |Encode(recs[..yielded])|
    }

    /** What the cursor finds at its place, and where the next place is. */
    lemma AtRecord()
      requires Valid()
      ensures yielded < page.rowCount && offset < page.usedBytes <==> yielded < |recs|
      ensures yielded == |recs| ==> yielded == page.rowCount as int && offset == page.usedBytes as int
      ensures yielded < |recs| ==>
                && offset + 4 + |recs[yielded]| <= page.payload.Length
                && FromLe32(page.payload[offset..offset + 4]) == |recs[yielded]|
                && page.payload[offset + 4..offset + 4 + |recs[yielded]|] == recs[yielded]
                && offset + 4 + |recs[yielded]| == |Encode(recs[..yielded + 1])|
    {
      hide Encode, FromLe32;
      assert recs[..|recs|] == recs;
      if yielded < |recs| {
        RecordPosition(page.V(), recs, yielded);
        EncodeTakeStep(recs, yielded);
      }
    }

    /**
     The next record, as its position in the payload.  At the end the cursor has yielded
     every record and stands at the end of the used bytes.
     */
    method Next() returns (more: bool, start: nat, len: uint32)
      requires Valid()
      modifies this
      ensures Valid()
      ensures more <==> old(yielded) < |recs|
      ensures more ==> yielded == old(yielded) + 1 && start + len <= page.payload.Length
                       && page.payload[start..start + len] == recs[old(yielded)]
      ensures !more ==> yielded == old(yielded) == page.rowCount as int && offset == page.usedBytes as int
    {
      hide Encode, FromLe32, Holds, DataPage.V;
      AtRecord();
      if yielded >= page.rowCount || offset >= page.usedBytes {
        return false, 0, 0;
      }
      len := FromLe32(page.payload[offset..offset + 4]);
      offset := offset + 4;
      start := offset;
      offset := offset + len;
      yielded := yielded + 1;
      more := true;
    }
  }
}
