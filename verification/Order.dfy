/**
 `record_order` and the heap order of `tracing/nvme-trace/src/lib.rs`, and exactly
 where `record_order` is transitive: it compares by sequence number within one
 controller and by timestamp otherwise, so it is not transitive everywhere.
 */
module Order {
  import opened Bytes
  import opened Records

  datatype Ordering = Less | Equal | Greater {
    function Then(other: Ordering): Ordering {
      if Equal? then other else this
    }

    function Reverse(): Ordering {
      match this
      case Less => Greater
      case Equal => Equal
      case Greater => Less
    }
  }

  function Cmp(a: int, b: int): Ordering {
    if a < b then Less else if a == b then Equal else Greater
  }

  /** Two records of one controller that both carry a sequence number. */
  predicate SameStream(a: Header, b: Header) {
    a.ctrlId == b.ctrlId && a.seqNo != 0 && b.seqNo != 0
  }

  function SeqOrder(a: Header, b: Header): Ordering {
    Cmp(a.seqNo, b.seqNo).Then(Cmp(a.qid, b.qid)).Then(Cmp(a.cid, b.cid))
  }

  function TimeOrder(a: Header, b: Header): Ordering {
    Cmp(a.timestampNs, b.timestampNs).Then(Cmp(a.ctrlId, b.ctrlId)).Then(Cmp(a.qid, b.qid)).Then(Cmp(a.cid, b.cid))
  }

  function RecordOrder(a: Header, b: Header): Ordering {
    if SameStream(a, b) then SeqOrder(a, b) else TimeOrder(a, b)
  }

  /** The fields compared within a stream, packed into one number. */
  function SeqKey(h: Header): nat {
    (h.seqNo * 0x100 + h.qid) * 0x1_0000 + h.cid
  }

  /** The fields compared otherwise, packed into one number. */
  function TimeKey(h: Header): nat {
    ((h.timestampNs * 0x100 + h.ctrlId) * 0x100 + h.qid) * 0x1_0000 + h.cid
  }

  /** `record_order` compares packed keys: which key depends on the pair. */
  lemma RecordOrderIsKeyOrder(a: Header, b: Header)
    ensures RecordOrder(a, b) == if SameStream(a, b) then Cmp(SeqKey(a), SeqKey(b)) else Cmp(TimeKey(a), TimeKey(b))
  {
  }

  predicate Le(a: Header, b: Header) {
    !RecordOrder(a, b).Greater?
  }

  ghost predicate TransitiveOn(s: set<Header>) {
    forall a, b, c :: a in s && b in s && c in s && Le(a, b) && Le(b, c) ==> Le(a, c)
  }

  // ---------------------------------------------------------------- where the order is transitive

  /** Holds everywhere: comparing the other way round reverses the answer, so the order is total. */
  lemma RecordOrderReverses(a: Header, b: Header)
    ensures RecordOrder(b, a) == RecordOrder(a, b).Reverse()
    ensures Le(a, b) || Le(b, a)
  {
  }

  lemma TimeOrderTransitive(a: Header, b: Header, c: Header)
    requires !TimeOrder(a, b).Greater? && !TimeOrder(b, c).Greater?
    ensures !TimeOrder(a, c).Greater?
    ensures TimeOrder(a, c).Equal? ==> TimeOrder(a, b).Equal? && TimeOrder(b, c).Equal?
  {
  }

  lemma SeqOrderTransitive(a: Header, b: Header, c: Header)
    requires !SeqOrder(a, b).Greater? && !SeqOrder(b, c).Greater?
    ensures !SeqOrder(a, c).Greater?
  {
  }

  predicate TimeBetween(z: Header, x: Header, y: Header) {
    || (!TimeOrder(x, z).Greater? && !TimeOrder(z, y).Greater?)
    || (!TimeOrder(y, z).Greater? && !TimeOrder(z, x).Greater?)
  }

  /** Two records of one stream whose sequence order and timestamp order differ, and a record outside
      that stream whose timestamp key lies between theirs. */
  predicate Straddles(z: Header, x: Header, y: Header) {
    SameStream(x, y) && SeqOrder(x, y) != TimeOrder(x, y) && !SameStream(x, z) && TimeBetween(z, x, y)
  }

  ghost predicate NoneStraddles(s: set<Header>) {
    forall x, y, z :: x in s && y in s && z in s ==> !Straddles(z, x, y)
  }

  lemma StraddleBreaks(x: Header, y: Header, z: Header)
    requires Straddles(z, x, y)
    ensures !TransitiveOn({x, y, z})
  {
  }

  lemma TimeReverses(a: Header, b: Header)
    ensures TimeOrder(b, a) == TimeOrder(a, b).Reverse()
  {
  }

  lemma SeqReverses(a: Header, b: Header)
    ensures SeqOrder(b, a) == SeqOrder(a, b).Reverse()
  {
  }

  lemma UnstraddledTriple(a: Header, b: Header, c: Header)
    requires NoneStraddles({a, b, c}) && Le(a, b) && Le(b, c)
    ensures Le(a, c)
  {
    hide SeqOrder, TimeOrder;
    TimeReverses(a, b);
    TimeReverses(b, c);
    TimeReverses(a, c);
    SeqReverses(a, b);
    SeqReverses(b, c);
    SeqReverses(a, c);
    assert !Straddles(c, a, b) && !Straddles(a, b, c) && !Straddles(b, a, c);
    if SameStream(a, b) && SameStream(b, c) {
      SeqOrderTransitive(a, b, c);
    } else if !TimeOrder(a, b).Greater? && !TimeOrder(b, c).Greater? {
      TimeOrderTransitive(a, b, c);
    } else if !Le(a, c) {
      if SameStream(a, b) {
        TimeOrderTransitive(b, c, a);
      } else if SameStream(b, c) {
        TimeOrderTransitive(c, a, b);
      }
    }
  }

  /** Exactly when `record_order` is a total preorder on a set of headers. */
  lemma TransitiveExactly(s: set<Header>)
    ensures TransitiveOn(s) <==> NoneStraddles(s)
  {
    hide Le, Straddles;
    if TransitiveOn(s) {
      forall x, y, z | x in s && y in s && z in s
        ensures !Straddles(z, x, y)
      {
        if Straddles(z, x, y) {
          StraddleBreaks(x, y, z);
        }
      }
    }
    if NoneStraddles(s) {
      forall a, b, c | a in s && b in s && c in s && Le(a, b) && Le(b, c)
        ensures Le(a, c)
      {
        UnstraddledTriple(a, b, c);
      }
    }
  }

  // ---------------------------------------------------------------- domains

  /** Captures without sequence numbers. */
  ghost predicate NoSeqs(s: set<Header>) {
    forall h <- s :: h.seqNo == 0
  }

  /** One controller, every record numbered. */
  ghost predicate OneController(s: set<Header>) {
    forall a, b :: a in s && b in s ==> SameStream(a, b)
  }

  /** Every record numbered, and within a controller a later timestamp has a later number. */
  ghost predicate SeqsFollowTime(s: set<Header>) {
    && (forall h <- s :: h.seqNo != 0)
    && forall a, b :: a in s && b in s && a.ctrlId == b.ctrlId && a.timestampNs < b.timestampNs ==> a.seqNo < b.seqNo
  }

  lemma NoSeqsTransitive(s: set<Header>)
    requires NoSeqs(s)
    ensures TransitiveOn(s)
  {
    hide TimeOrder;
    TransitiveExactly(s);
  }

  lemma OneControllerTransitive(s: set<Header>)
    requires OneController(s)
    ensures TransitiveOn(s)
  {
    hide TimeOrder, SeqOrder;
    TransitiveExactly(s);
  }

  /** Where sequence numbers follow time, the order is lexicographic in timestamp, controller,
      sequence number, queue and command. */
  lemma SeqsFollowTimeLexicographic(s: set<Header>, a: Header, b: Header)
    requires SeqsFollowTime(s) && a in s && b in s
    ensures RecordOrder(a, b)
            == Cmp(a.timestampNs, b.timestampNs).Then(Cmp(a.ctrlId, b.ctrlId)).Then(Cmp(a.seqNo, b.seqNo))
               .Then(Cmp(a.qid, b.qid)).Then(Cmp(a.cid, b.cid))
  {
  }

  lemma SeqsFollowTimeTransitive(s: set<Header>)
    requires SeqsFollowTime(s)
    ensures TransitiveOn(s)
  {
  }

  /** Not transitive in general: two numbered records of controller 0 whose timestamps run against their
      numbers, and a record of controller 1 in between, form a cycle. */
  lemma OrderCycle() returns (a: Header, b: Header, c: Header)
    ensures RecordOrder(a, b).Less? && RecordOrder(b, c).Less? && RecordOrder(c, a).Less?
  {
    a := Header(MAGIC, VERSION, COMPLETE, COMPLETE_LEN, 30, 1, 0, 1, 1);
    b := a.(timestampNs := 10, seqNo := 2);
    c := a.(timestampNs := 20, ctrlId := 1);
  }

  // ---------------------------------------------------------------- the order of the heap

  type Name = seq<byte>

  function NameOrder(a: Name, b: Name): Ordering {
    if a == [] then if b == [] then Equal else Less
    else if b == [] then Greater
    else Cmp(a[0], b[0]).Then(NameOrder(a[1..], b[1..]))
  }

  datatype HeapItem = HeapItem(sourceName: Name, inputIndex: nat, record: RawRecord)

  /** Smallest first: by header, then by source name, then by offset. */
  function ItemOrder(a: HeapItem, b: HeapItem): Ordering {
    RecordOrder(a.record.header, b.record.header)
    .Then(NameOrder(a.sourceName, b.sourceName))
    .Then(Cmp(a.record.offset, b.record.offset))
  }

  /** The source's `Ord`: reversed, because the heap pops a maximum. */
  function HeapCmp(a: HeapItem, b: HeapItem): Ordering {
    RecordOrder(b.record.header, a.record.header)
    .Then(NameOrder(b.sourceName, a.sourceName))
    .Then(Cmp(b.record.offset, a.record.offset))
  }

  predicate ItemLe(a: HeapItem, b: HeapItem) {
    !ItemOrder(a, b).Greater?
  }

  lemma {:induction false} NameOrderReverses(a: Name, b: Name)
    ensures NameOrder(b, a) == NameOrder(a, b).Reverse()
  {
    if a != [] && b != [] {
      NameOrderReverses(a[1..], b[1..]);
    }
  }

  lemma {:induction false} NameOrderEqual(a: Name, b: Name)
    ensures NameOrder(a, b).Equal? <==> a == b
  {
    if a != [] && b != [] {
      NameOrderEqual(a[1..], b[1..]);
      assert a == [a[0]] + a[1..] && b == [b[0]] + b[1..];
    }
  }

  lemma {:induction false} NameOrderTransitive(a: Name, b: Name, c: Name)
    requires !NameOrder(a, b).Greater? && !NameOrder(b, c).Greater?
    ensures !NameOrder(a, c).Greater?
  {
    if a != [] && b != [] && c != [] && a[0] == b[0] == c[0] {
      NameOrderTransitive(a[1..], b[1..], c[1..]);
    }
  }

  /** The heap's order is the reverse of the item order. */
  lemma HeapCmpReverses(a: HeapItem, b: HeapItem)
    ensures HeapCmp(a, b) == ItemOrder(a, b).Reverse() == ItemOrder(b, a)
  {
    hide RecordOrder, NameOrder;
    RecordOrderReverses(a.record.header, b.record.header);
    NameOrderReverses(a.sourceName, b.sourceName);
  }

  lemma ItemLeTransitive(a: HeapItem, b: HeapItem, c: HeapItem)
    requires TransitiveOn({a.record.header, b.record.header, c.record.header})
    requires ItemLe(a, b) && ItemLe(b, c)
    ensures ItemLe(a, c)
  {
    hide RecordOrder, NameOrder;
    var x, y, z := a.record.header, b.record.header, c.record.header;
    RecordOrderReverses(x, y);
    RecordOrderReverses(y, z);
    RecordOrderReverses(x, z);
    assert Le(x, y) && Le(y, z) && Le(x, z);
    assert Le(z, x) ==> Le(y, x) && Le(z, y);
    NameOrderEqual(a.sourceName, b.sourceName);
    NameOrderEqual(b.sourceName, c.sourceName);
    NameOrderReverses(a.sourceName, b.sourceName);
    NameOrderReverses(b.sourceName, c.sourceName);
    if !NameOrder(a.sourceName, b.sourceName).Greater? && !NameOrder(b.sourceName, c.sourceName).Greater? {
      NameOrderTransitive(a.sourceName, b.sourceName, c.sourceName);
      NameOrderEqual(a.sourceName, c.sourceName);
      if NameOrder(a.sourceName, c.sourceName).Equal? {
        NameSqueezed(a.sourceName, b.sourceName);
      }
    }
  }

  lemma NameSqueezed(a: Name, b: Name)
    requires !NameOrder(a, b).Greater? && !NameOrder(b, a).Greater?
    ensures a == b
  {
    hide NameOrder;
    NameOrderReverses(a, b);
    NameOrderEqual(a, b);
  }

  // ---------------------------------------------------------------- the order, field by field

  predicate QueueBefore(a: Header, b: Header) {
    a.qid < b.qid || (a.qid == b.qid && a.cid < b.cid)
  }

  /** Strictly earlier: by sequence number where both records of one controller carry one, else by timestamp and
      controller; then by queue and command. */
  predicate HeaderBefore(a: Header, b: Header) {
    if a.ctrlId == b.ctrlId && a.seqNo > 0 && b.seqNo > 0 then
      a.seqNo < b.seqNo || (a.seqNo == b.seqNo && QueueBefore(a, b))
    else
      || a.timestampNs < b.timestampNs
      || (a.timestampNs == b.timestampNs
          && (a.ctrlId < b.ctrlId || (a.ctrlId == b.ctrlId && QueueBefore(a, b))))
  }

  /** Ascending byte order: a proper prefix comes first, otherwise the first byte that differs decides. */
  ghost predicate NameBefore(a: Name, b: Name) {
    || (|a| < |b| && a == b[..|a|])
    || exists k :: 0 <= k < |a| && k < |b| && a[..k] == b[..k] && a[k] < b[k]
  }

  /** What leaves the heap first: the earlier header, then the smaller name, then the smaller offset. */
  ghost predicate ItemBefore(a: HeapItem, b: HeapItem) {
    var x, y := a.record.header, b.record.header;
    || HeaderBefore(x, y)
    || (!HeaderBefore(y, x)
        && (NameBefore(a.sourceName, b.sourceName)
            || (a.sourceName == b.sourceName && a.record.offset < b.record.offset)))
  }

  lemma RecordOrderMeans(a: Header, b: Header)
    ensures RecordOrder(a, b).Less? <==> HeaderBefore(a, b)
    ensures RecordOrder(a, b).Greater? <==> HeaderBefore(b, a)
  {
  }

  lemma NameBeforeTail(a: Name, b: Name)
    requires a != [] && b != [] && a[0] == b[0]
    ensures NameBefore(a, b) <==> NameBefore(a[1..], b[1..])
  {
    var s, t := a[1..], b[1..];
    if |a| < |b| {
      assert b[..|a|][1..] == t[..|s|];
      assert a == b[..|a|] <==> s == t[..|s|] by {
        assert a == [a[0]] + s && b[..|a|] == [b[0]] + t[..|s|];
      }
    }
    if k :| 0 <= k < |a| && k < |b| && a[..k] == b[..k] && a[k] < b[k] {
      assert k > 0;
      assert s[..k - 1] == a[..k][1..] && t[..k - 1] == b[..k][1..];
      assert s[k - 1] < t[k - 1];
    }
    if k :| 0 <= k < |s| && k < |t| && s[..k] == t[..k] && s[k] < t[k] {
      assert a[..k + 1] == [a[0]] + s[..k] && b[..k + 1] == [b[0]] + t[..k];
      assert a[k + 1] < b[k + 1];
    }
  }

  lemma {:induction false} NameLessMeans(a: Name, b: Name)
    ensures NameOrder(a, b).Less? <==> NameBefore(a, b)
  {
    if a == [] {
      assert b != [] ==> a == b[..0];
    } else if b != [] {
      if a[0] == b[0] {
        NameLessMeans(a[1..], b[1..]);
        NameBeforeTail(a, b);
      } else {
        assert a[..0] == b[..0];
        assert |a| < |b| ==> a[0] != b[..|a|][0];
        assert forall k :: 0 < k < |a| && k < |b| ==> a[..k][0] != b[..k][0];
      }
    }
  }

  lemma NameOrderMeans(a: Name, b: Name)
    ensures NameOrder(a, b).Less? <==> NameBefore(a, b)
    ensures NameOrder(a, b).Greater? <==> NameBefore(b, a)
    ensures NameOrder(a, b).Equal? <==> a == b
  {
    hide NameOrder, NameBefore;
    NameLessMeans(a, b);
    NameLessMeans(b, a);
    NameOrderReverses(a, b);
    NameOrderEqual(a, b);
  }

  /** The heap's comparison ranks an item above another exactly when that item is to leave first. */
  lemma ItemOrderMeans(a: HeapItem, b: HeapItem)
    ensures HeapCmp(a, b).Greater? <==> ItemBefore(a, b)
    ensures ItemLe(a, b) <==> !ItemBefore(b, a)
  {
    hide RecordOrder, NameOrder, HeaderBefore, NameBefore;
    RecordOrderMeans(a.record.header, b.record.header);
    NameOrderMeans(a.sourceName, b.sourceName);
    HeapCmpReverses(a, b);
  }
}
