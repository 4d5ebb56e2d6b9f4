/**
 What updateDeviceStatus (src/ts/api.ts:35-71) does to the page, stated as
 functions over values. A page element is modelled by the sequence of its
 child nodes; the block that the renderer owns is the first `StatusInfo`
 child node (only `StatusInfo` nodes are taken to carry class "status-info"),
 and each of its lines is a paragraph with a class, a text and an optional
 inline colour.
 */
module DeviceRender {
  import opened Wrappers
  import opened Types
  import opened StatusColors

  /** A `<p>` element: its class (if any), its text and its inline `color` (if set). */
  datatype Paragraph = Paragraph(cls: Option<string>, text: string, colour: Option<Colour>)

  /** A child node of a page element. */
  datatype Node =
    | StatusInfo(lines: seq<Paragraph>)   // a `div.status-info` holding paragraphs
    | Para(p: Paragraph)                  // a bare paragraph, as the global error message
    | Opaque(markup: string)              // any other content the page already holds

  datatype Element = Element(nodes: seq<Node>)

  /** The identifier a record is looked up by: its lower-cased "Device Name". */
  function Key(d: Device): string {
    Lower(d.deviceName)
  }

  /** The key matches the "Device Name" ignoring case and holds no upper-case ASCII letter. */
  lemma KeyIsLowered(d: Device)
    ensures SameIgnoringCase(Key(d), d.deviceName)
    ensures forall i :: 0 <= i < |Key(d)| ==> !('A' <= Key(d)[i] <= 'Z')
  {
  }

  /** `getElementById`: the empty identifier never names an element. */
  predicate Targets(els: map<string, Element>, id: string): (found: bool)
    ensures found ==> id in els
    ensures id == "" ==> !found
  {
    id != "" && id in els
  }

  /** `if (device.Info)`: the field is present and is not the empty string. */
  predicate InfoShown(d: Device) {
    d.info.Some? && d.info.value != ""
  }

  /** The lines written into a cleared block for record `d`. */
  function StatusLines(d: Device): (lines: seq<Paragraph>)
    ensures |lines| == if InfoShown(d) then 2 else 1
    ensures lines[0].cls == Some("status") && lines[0].text == "Status: " + d.status
    ensures lines[0].colour == Some(GetStatusColor(d.status))
    ensures forall i :: 1 <= i < |lines| ==> lines[i] == Paragraph(Some("info"), "Info: " + d.info.value, None)
  {
    [Paragraph(Some("status"), "Status: " + d.status, Some(GetStatusColor(d.status)))] +
    (if InfoShown(d) then [Paragraph(Some("info"), "Info: " + d.info.value, None)] else [])
  }

  /** The position of the first status-info node, or |ns| when there is none. */
  function BlockIndex(ns: seq<Node>): (i: nat)
    ensures i <= |ns|
    ensures i < |ns| ==> ns[i].StatusInfo?
    ensures forall j :: 0 <= j < i ==> !ns[j].StatusInfo?
  {
    if ns == [] then 0
    else if ns[0].StatusInfo? then 0
    else 1 + BlockIndex(ns[1..])
  }

  /** `querySelector(".status-info")`: the lines of the first block, if the element has one. */
  function FirstBlock(ns: seq<Node>): (b: Option<seq<Paragraph>>)
    ensures b.Some? <==> exists i :: 0 <= i < |ns| && ns[i].StatusInfo?
    ensures b.Some? ==> StatusInfo(b.value) in ns
  {
    var i := BlockIndex(ns);
    if i < |ns| then Some(ns[i].lines) else None
  }

  /** At most one child node is a status-info block. */
  predicate AtMostOneBlock(ns: seq<Node>) {
    forall i, j :: 0 <= i < |ns| && 0 <= j < |ns| && ns[i].StatusInfo? && ns[j].StatusInfo? ==> i == j
  }

  /**
   The element after record `d` is rendered into it: a block is appended
   only when none exists (lines 46-50), and the block is then emptied and
   filled (lines 52-65).
   */
  function Write(e: Element, d: Device): (r: Element)
    ensures |r.nodes| == if FirstBlock(e.nodes).Some? then |e.nodes| else |e.nodes| + 1
    ensures r.nodes[BlockIndex(e.nodes)] == StatusInfo(StatusLines(d))
    ensures forall i :: 0 <= i < |e.nodes| && i != BlockIndex(e.nodes) ==> r.nodes[i] == e.nodes[i]
  {
    var i := BlockIndex(e.nodes);
    var ns := if i < |e.nodes| then e.nodes else e.nodes + [StatusInfo([])];
    Element(ns[i := StatusInfo(StatusLines(d))])
  }

  /** The page after one record: an element named by the record's key is rewritten, otherwise nothing changes. */
  function Step(els: map<string, Element>, d: Device): (r: map<string, Element>)
    ensures r.Keys == els.Keys
  {
    var id := Key(d);
    if Targets(els, id) then els[id := Write(els[id], d)] else els
  }

  /** The page after the records `ds`, in order. */
  function Apply(els: map<string, Element>, ds: seq<Device>): (r: map<string, Element>)
    ensures r.Keys == els.Keys
  {
    if ds == [] then els else Step(Apply(els, ds[..|ds| - 1]), ds[|ds| - 1])
  }

  /** The children of all sheets, sheets in order and then children in order. */
  function Rows(sheets: seq<SheetData>): seq<Row> {
    if sheets == [] then [] else Rows(sheets[..|sheets| - 1]) + sheets[|sheets| - 1].children
  }

  /** A row is walked exactly when it is a child of some sheet. */
  lemma {:induction false} RowsMembers(sheets: seq<SheetData>)
    ensures forall row :: row in Rows(sheets) <==> exists k :: 0 <= k < |sheets| && row in sheets[k].children
  {
    if sheets != [] {
      var init := sheets[..|sheets| - 1];
      RowsMembers(init);
      forall row | row in Rows(sheets)
        ensures exists k :: 0 <= k < |sheets| && row in sheets[k].children
      {
        if row in Rows(init) {
          var k :| 0 <= k < |init| && row in init[k].children;
          assert init[k] == sheets[k];
        }
      }
      forall row, k | 0 <= k < |sheets| && row in sheets[k].children
        ensures row in Rows(sheets)
      {
        if k < |init| {
          assert init[k] == sheets[k];
        }
      }
    }
  }

  /** Some row lacks a "Device Name", so reading it throws and ends the batch. */
  predicate Halts(rows: seq<Row>): (throws: bool)
    ensures throws <==> |Processed(rows)| < |rows|
  {
    exists i :: 0 <= i < |rows| && rows[i].SlotRow?
  }

  /** The records the renderer gets through: the device rows before the first row that throws. */
  function Processed(rows: seq<Row>): (ds: seq<Device>)
    ensures |ds| <= |rows|
    ensures forall i :: 0 <= i < |ds| ==> rows[i] == DeviceRow(ds[i])
    ensures |ds| == |rows| || rows[|ds|].SlotRow?
  {
    if rows == [] then []
    else match rows[0]
      case SlotRow(_) => []
      case DeviceRow(d) => [d] + Processed(rows[1..])
  }

  /** The last record among `ds` whose key is `id`, if any. */
  function LastFor(ds: seq<Device>, id: string): (r: Option<Device>)
    ensures r.None? <==> forall i :: 0 <= i < |ds| ==> Key(ds[i]) != id
    ensures r.Some? ==> exists j :: 0 <= j < |ds| && ds[j] == r.value && Key(ds[j]) == id &&
                                    forall i :: j < i < |ds| ==> Key(ds[i]) != id
  {
    if ds == [] then None
    else
      var init, last := ds[..|ds| - 1], ds[|ds| - 1];
      if Key(last) == id then Some(last)
      else
        assert forall i :: 0 <= i < |init| ==> init[i] == ds[i];
        LastFor(init, id)
  }

  /** The element after the last record naming it, or unchanged when no record does. */
  function Final(e: Element, last: Option<Device>): Element {
    match last
    case None => e
    case Some(d) => Write(e, d)
  }

  // ---------------------------------------------------------------------
  // One record on one element
  // ---------------------------------------------------------------------

  /** The block is reused when present: only that node changes, and it keeps its position. */
  lemma WriteReusesBlock(e: Element, d: Device)
    requires FirstBlock(e.nodes).Some?
    ensures |Write(e, d).nodes| == |e.nodes|
    ensures Write(e, d).nodes[BlockIndex(e.nodes)] == StatusInfo(StatusLines(d))
    ensures forall i :: 0 <= i < |e.nodes| && i != BlockIndex(e.nodes) ==> Write(e, d).nodes[i] == e.nodes[i]
  {
  }

  /** The block is created only when absent, and then it is appended after all existing content. */
  lemma WriteCreatesBlock(e: Element, d: Device)
    requires FirstBlock(e.nodes).None?
    ensures Write(e, d).nodes == e.nodes + [StatusInfo(StatusLines(d))]
  {
    var ns := e.nodes + [StatusInfo([])];
    assert ns[|e.nodes|].StatusInfo?;
    assert BlockIndex(ns) == |e.nodes|;
  }

  /**
   After a record is rendered, the element's block holds exactly its status
   line, coloured by the status, followed by its info line if and only if
   the info is present and not empty; nothing written before survives.
   */
  lemma WriteShowsRecord(e: Element, d: Device)
    ensures BlockIndex(Write(e, d).nodes) == BlockIndex(e.nodes)
    ensures FirstBlock(Write(e, d).nodes) == Some(StatusLines(d))
    ensures var b := StatusLines(d);
      && (|b| == 2 <==> InfoShown(d)) && 1 <= |b| <= 2
      && b[0] == Paragraph(Some("status"), "Status: " + d.status, Some(GetStatusColor(d.status)))
      && (InfoShown(d) ==> b[1] == Paragraph(Some("info"), "Info: " + d.info.value, None))
  {
    var k := BlockIndex(e.nodes);
    var ns := Write(e, d).nodes;
    BlockIndexAt(ns, k);
  }

  /** A block at position k with none before it is the block `querySelector` finds. */
  lemma BlockIndexAt(ns: seq<Node>, k: nat)
    requires k < |ns| && ns[k].StatusInfo?
    requires forall j :: 0 <= j < k ==> !ns[j].StatusInfo?
    ensures BlockIndex(ns) == k
  {
  }

  /** A rendered element keeps exactly one block when it had at most one. */
  lemma WriteKeepsOneBlock(e: Element, d: Device)
    requires AtMostOneBlock(e.nodes)
    ensures AtMostOneBlock(Write(e, d).nodes)
    ensures FirstBlock(Write(e, d).nodes).Some?
  {
    WriteShowsRecord(e, d);
    if FirstBlock(e.nodes).None? {
      WriteCreatesBlock(e, d);
    } else {
      WriteReusesBlock(e, d);
    }
  }

  /** Rendering two records in turn leaves the element as rendering the second alone. */
  lemma {:induction false} WriteTwice(e: Element, d1: Device, d2: Device)
    ensures Write(Write(e, d1), d2) == Write(e, d2)
  {
    WriteShowsRecord(e, d1);
    var k := BlockIndex(e.nodes);
    var ns := if k < |e.nodes| then e.nodes else e.nodes + [StatusInfo([])];
    assert Write(e, d1).nodes == ns[k := StatusInfo(StatusLines(d1))];
    assert Write(Write(e, d1), d2).nodes == ns[k := StatusInfo(StatusLines(d2))];
  }

  // ---------------------------------------------------------------------
  // A batch of records on the page
  // ---------------------------------------------------------------------

  /** Each element ends as the last record naming it left it. */
  lemma {:induction false} ApplyAt(els: map<string, Element>, ds: seq<Device>, id: string)
    requires Targets(els, id)
    ensures Apply(els, ds)[id] == Final(els[id], LastFor(ds, id))
  {
    if ds != [] {
      var init, d := ds[..|ds| - 1], ds[|ds| - 1];
      ApplyAt(els, init, id);
      if Key(d) == id {
        match LastFor(init, id)
        case None =>
        case Some(prev) => WriteTwice(els[id], prev, d);
      }
    }
  }

  /** Elements that no record names, and the empty identifier, keep their content. */
  lemma {:induction false} Untouched(els: map<string, Element>, ds: seq<Device>, id: string)
    requires id in els
    requires id == "" || forall i :: 0 <= i < |ds| ==> Key(ds[i]) != id
    ensures Apply(els, ds)[id] == els[id]
  {
    if ds != [] {
      var init := ds[..|ds| - 1];
      Untouched(els, init, id);
    }
  }

  /** A record whose element is missing is skipped: the batch ends as if it were not there. */
  lemma {:induction false} MissingElementSkipped(els: map<string, Element>, before: seq<Device>, d: Device, after: seq<Device>)
    requires !Targets(els, Key(d))
    ensures Apply(els, before + [d] + after) == Apply(els, before + after)
  {
    if after == [] {
      assert (before + [d])[..|before|] == before;
      assert before + [d] + after == before + [d];
      assert before + after == before;
    } else {
      var init, last := after[..|after| - 1], after[|after| - 1];
      MissingElementSkipped(els, before, d, init);
      assert (before + [d] + after)[..|before + [d] + after| - 1] == before + [d] + init;
      assert (before + after)[..|before + after| - 1] == before + init;
    }
  }

  /**
   When several records share a key, the element shows the last one
   processed; rows after a child that throws are never processed and do
   not count.
   */
  lemma LastRecordWins(els: map<string, Element>, rows: seq<Row>, j: nat)
    requires j < |Processed(rows)|
    requires Targets(els, Key(Processed(rows)[j]))
    requires forall i :: j < i < |Processed(rows)| ==> Key(Processed(rows)[i]) != Key(Processed(rows)[j])
    ensures rows[j] == DeviceRow(Processed(rows)[j])
    ensures FirstBlock(Apply(els, Processed(rows))[Key(Processed(rows)[j])].nodes) == Some(StatusLines(Processed(rows)[j]))
  {
    var ds := Processed(rows);
    var id := Key(ds[j]);
    assert LastFor(ds, id) == Some(ds[j]);
    ApplyAt(els, ds, id);
    WriteShowsRecord(els[id], ds[j]);
  }

  /** Every element the batch names ends with exactly one block, provided none had two. */
  lemma {:induction false} ApplyKeepsOneBlock(els: map<string, Element>, ds: seq<Device>)
    requires forall id :: id in els ==> AtMostOneBlock(els[id].nodes)
    ensures forall id :: id in els ==> AtMostOneBlock(Apply(els, ds)[id].nodes)
    ensures forall i :: 0 <= i < |ds| && Targets(els, Key(ds[i])) ==> FirstBlock(Apply(els, ds)[Key(ds[i])].nodes).Some?
  {
    if ds != [] {
      var init, d := ds[..|ds| - 1], ds[|ds| - 1];
      ApplyKeepsOneBlock(els, init);
      var prev := Apply(els, init);
      if Targets(prev, Key(d)) {
        WriteKeepsOneBlock(prev[Key(d)], d);
      }
      forall i | 0 <= i < |ds| - 1 && Targets(els, Key(ds[i]))
        ensures FirstBlock(Apply(els, ds)[Key(ds[i])].nodes).Some?
      {
        assert ds[i] == init[i];
      }
    }
  }

  /** Rendering the same records twice leaves the page as rendering them once. */
  lemma Idempotent(els: map<string, Element>, ds: seq<Device>)
    ensures Apply(Apply(els, ds), ds) == Apply(els, ds)
  {
    var once := Apply(els, ds);
    forall id | id in once
      ensures Apply(once, ds)[id] == once[id]
    {
      if Targets(els, id) {
        ApplyAt(els, ds, id);
        ApplyAt(once, ds, id);
        match LastFor(ds, id)
        case None =>
        case Some(d) => WriteTwice(els[id], d, d);
      } else {
        Untouched(once, ds, id);
      }
    }
  }

  // ---------------------------------------------------------------------
  // How the nested loops walk the sheets
  // ---------------------------------------------------------------------

  /** The records processed are fixed by the rows: the longest run of device rows at the front. */
  lemma {:induction false} ProcessedUnique(rows: seq<Row>, ds: seq<Device>)
    requires |ds| <= |rows|
    requires forall i :: 0 <= i < |ds| ==> rows[i] == DeviceRow(ds[i])
    requires |ds| == |rows| || rows[|ds|].SlotRow?
    ensures Processed(rows) == ds
  {
    if ds != [] {
      assert rows[0] == DeviceRow(ds[0]);
      ProcessedUnique(rows[1..], ds[1..]);
      assert ds == [ds[0]] + ds[1..];
    }
  }

  /** One more device row, before any row has thrown, is one more processed record. */
  lemma ProcessedExtend(rows: seq<Row>, d: Device)
    requires !Halts(rows)
    ensures Processed(rows + [DeviceRow(d)]) == Processed(rows) + [d]
  {
    var ps := Processed(rows);
    ProcessedUnique(rows + [DeviceRow(d)], ps + [d]);
  }

  /** A row that throws, before any other has, adds no record and ends the batch. */
  lemma ProcessedHalt(rows: seq<Row>, s: MonitorSlot)
    requires !Halts(rows)
    ensures Halts(rows + [SlotRow(s)])
    ensures Processed(rows + [SlotRow(s)]) == Processed(rows)
  {
    assert (rows + [SlotRow(s)])[|rows|].SlotRow?;
    ProcessedUnique(rows + [SlotRow(s)], Processed(rows));
  }

  /** One more record is one more step. */
  lemma ApplySnoc(els: map<string, Element>, ds: seq<Device>, d: Device)
    ensures Apply(els, ds + [d]) == Step(Apply(els, ds), d)
  {
    assert (ds + [d])[..|ds|] == ds;
  }

  /** The rows of the first i + 1 sheets: those of the first i, then the children of sheet i. */
  lemma RowsSnoc(sheets: seq<SheetData>, i: nat)
    requires i < |sheets|
    ensures Rows(sheets[..i + 1]) == Rows(sheets[..i]) + sheets[i].children
  {
    assert sheets[..i + 1][..i] == sheets[..i];
  }

  /** The rows of all sheets around sheet i. */
  lemma RowsSplit(sheets: seq<SheetData>, i: nat)
    requires i < |sheets|
    ensures Rows(sheets) == Rows(sheets[..i]) + sheets[i].children + Rows(sheets[i + 1..])
  {
    assert sheets == sheets[..i + 1] + sheets[i + 1..];
    RowsAppend(sheets[..i + 1], sheets[i + 1..]);
    RowsSnoc(sheets, i);
  }

  /** Once a row has thrown, later rows are never processed. */
  lemma ProcessedStops(rows: seq<Row>, rest: seq<Row>)
    requires Halts(rows)
    ensures Halts(rows + rest)
    ensures Processed(rows + rest) == Processed(rows)
  {
    var i :| 0 <= i < |rows| && rows[i].SlotRow?;
    assert (rows + rest)[i].SlotRow?;
    var ps := Processed(rows);
    assert |ps| <= i;
    assert (rows + rest)[|ps|] == rows[|ps|];
    ProcessedUnique(rows + rest, ps);
  }

  /** The rows of consecutive runs of sheets are concatenated. */
  lemma {:induction false} RowsAppend(a: seq<SheetData>, b: seq<SheetData>)
    ensures Rows(a + b) == Rows(a) + Rows(b)
  {
    if b != [] {
      var init := b[..|b| - 1];
      RowsAppend(a, init);
      assert (a + b)[..|a + b| - 1] == a + init;
      assert (a + b)[|a + b| - 1] == b[|b| - 1];
      assert Rows(b) == Rows(init) + b[|b| - 1].children;
    } else {
      assert a + b == a;
    }
  }
}
