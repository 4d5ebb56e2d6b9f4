/**
 The page that src/ts/api.ts updates in place: the elements found by
 identifier, and the `main` element that receives the global error message.
 */
module Api {
  import opened Wrappers
  import opened Types
  import opened StatusColors
  import opened DeviceRender

  /**
   What the fetch and the JSON parse produced; the network itself is not
   modelled. A rejected `fetch` (a network error) and a body that parses but
   has no `data` array both end in the same catch as `Unparsable`, so
   `Unparsable` stands for them too.
   */
  datatype FetchResult =
    | NotOk(status: int)          // `response.ok` is false
    | Unparsable                  // `fetch` or `response.json()` rejected, or no `data` array
    | Parsed(body: ApiResponse)

  /** The one message the page shows when loading fails. */
  const LoadFailure: string := "Failed to load device data."

  /** The red paragraph displayGlobalError appends. */
  function ErrorParagraph(message: string): (p: Paragraph)
    ensures p.text == message && p.cls.None?
    ensures p.colour.Some? && p.colour.value.Css() == "red"
  {
    Paragraph(None, message, Some(Red))
  }

  /** `main` after displayGlobalError: one red paragraph appended when it exists, nothing otherwise. */
  function WithError(main: Option<Element>, message: string): (r: Option<Element>)
    ensures r.Some? <==> main.Some?
    ensures main.Some? ==> |r.value.nodes| == |main.value.nodes| + 1
    ensures main.Some? ==> r.value.nodes[..|main.value.nodes|] == main.value.nodes
    ensures main.Some? ==> r.value.nodes[|main.value.nodes|] == Para(ErrorParagraph(message))
  {
    match main
    case None => None
    case Some(e) => Some(Element(e.nodes + [Para(ErrorParagraph(message))]))
  }

  /** The fetch succeeded and every sheet child was read as a device. */
  predicate Loaded(result: FetchResult) {
    result.Parsed? && !Halts(Rows(result.body.data))
  }

  class Page {
    /** The elements `getElementById` can find, by identifier. */
    var elements: map<string, Element>
    /** The `main` element, if the page has one. */
    var main: Option<Element>

    constructor (elements: map<string, Element>, main: Option<Element>)
      ensures this.elements == elements && this.main == main
    {
      this.elements := elements;
      this.main := main;
    }

    /**
     updateDeviceStatus. Returns false when a child without a "Device Name"
     made the lookup throw; the records before it stay rendered.
     */
    method UpdateDeviceStatus(response: ApiResponse) returns (completed: bool)
      modifies this
      ensures completed == !Halts(Rows(response.data))
      ensures elements == Apply(old(elements), Processed(Rows(response.data)))
      ensures main == old(main)
    {
      var sheets := response.data;
      var i := 0;
      while i < |sheets|
        invariant 0 <= i <= |sheets|
        invariant main == old(main)
        invariant !Halts(Rows(sheets[..i]))
        invariant elements == Apply(old(elements), Processed(Rows(sheets[..i])))
      {
        var children := sheets[i].children;
        ghost var done := Rows(sheets[..i]);
        ghost var seen := done;
        var j := 0;
        assert seen == seen + children[..j];
        while j < |children|
          invariant 0 <= j <= |children|
          invariant main == old(main)
          invariant seen == done + children[..j]
          invariant !Halts(seen)
          invariant elements == Apply(old(elements), Processed(seen))
        {
          NextChild(done, children, j);
          match children[j]
          case SlotRow(slot) =>
            ProcessedHalt(seen, slot);
            StopsForGood(sheets, i, j);
            return false;
          case DeviceRow(device) =>
            DeviceStep(old(elements), seen, device);
            RenderDevice(device);
          seen := seen + [children[j]];
          j := j + 1;
        }
        assert children[..j] == children;
        RowsSnoc(sheets, i);
        i := i + 1;
      }
      assert sheets[..i] == sheets;
      return true;
    }

    /**
     The body of the inner `forEach` for a record that has a "Device Name":
     look the element up by the lower-cased name and, when it exists, render
     the record into it; a missing element is only reported to the console.
     */
    method RenderDevice(device: Device)
      modifies this
      ensures elements == Step(old(elements), device)
      ensures main == old(main)
    {
      var id := Lower(device.deviceName);
      if id != "" && id in elements {
        elements := elements[id := Write(elements[id], device)];
      }
    }

    /** displayGlobalError: appends a red message to `main` when the page has one. */
    method DisplayGlobalError(message: string)
      modifies this
      ensures main == WithError(old(main), message)
      ensures elements == old(elements)
    {
      if main.Some? {
        main := Some(Element(main.value.nodes + [Para(ErrorParagraph(message))]));
      }
    }

    /**
     fetchAndUpdateDevices, given what the fetch produced: a failed response
     renders no device; any failure, including one thrown part-way through
     the devices, shows the load-failure message once.
     */
    method FetchAndUpdateDevices(result: FetchResult)
      modifies this
      ensures elements == if result.Parsed?
                          then Apply(old(elements), Processed(Rows(result.body.data)))
                          else old(elements)
      ensures main == if Loaded(result) then old(main) else WithError(old(main), LoadFailure)
    {
      match result
      case NotOk(_) =>
        DisplayGlobalError(LoadFailure);
      case Unparsable =>
        DisplayGlobalError(LoadFailure);
      case Parsed(body) =>
        var completed := UpdateDeviceStatus(body);
        if !completed {
          DisplayGlobalError(LoadFailure);
        }
    }
  }

  /** The rows up to child j + 1 of a sheet extend those up to child j by that child. */
  lemma NextChild(done: seq<Row>, children: seq<Row>, j: nat)
    requires j < |children|
    ensures done + children[..j + 1] == (done + children[..j]) + [children[j]]
  {
    assert children[..j + 1] == children[..j] + [children[j]];
  }

  /** A device row read before any child has thrown is rendered as one more step. */
  lemma DeviceStep(els: map<string, Element>, before: seq<Row>, d: Device)
    requires !Halts(before)
    ensures !Halts(before + [DeviceRow(d)])
    ensures Apply(els, Processed(before + [DeviceRow(d)])) == Step(Apply(els, Processed(before)), d)
  {
    ProcessedExtend(before, d);
    ApplySnoc(els, Processed(before), d);
    assert forall i :: 0 <= i < |before| ==> (before + [DeviceRow(d)])[i] == before[i];
  }

  /** A child that throws at sheet i, position j, ends the whole batch where it stands. */
  lemma StopsForGood(sheets: seq<SheetData>, i: nat, j: nat)
    requires i < |sheets| && j < |sheets[i].children|
    requires Halts(Rows(sheets[..i]) + sheets[i].children[..j + 1])
    ensures Halts(Rows(sheets))
    ensures Processed(Rows(sheets)) == Processed(Rows(sheets[..i]) + sheets[i].children[..j + 1])
  {
    var children := sheets[i].children;
    var upTo := Rows(sheets[..i]) + children[..j + 1];
    var rest := children[j + 1..] + Rows(sheets[i + 1..]);
    RowsSplit(sheets, i);
    assert children == children[..j + 1] + children[j + 1..];
    assert Rows(sheets) == upTo + rest;
    ProcessedStops(upTo, rest);
  }
}
