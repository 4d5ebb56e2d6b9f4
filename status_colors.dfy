/**
 The colour of a device's status line (getStatusColor, src/ts/api.ts:73-84),
 and the lower-casing that both the colour match and the element lookup use.
 */
module StatusColors {

  /** Lower-cases one character; only the ASCII letters A-Z change. */
  function LowerChar(c: char): char {
    if 'A' <= c <= 'Z' then (c as int + 32) as char else c
  }

  /** `toLowerCase`, restricted to ASCII: every character is lower-cased on its own. */
  function Lower(s: string): (r: string)
    ensures |r| == |s|
  {
    seq(|s|, i requires 0 <= i < |s| => LowerChar(s[i]))
  }

  /** Lower-casing works character by character and leaves no upper-case ASCII letter. */
  lemma LowerIsLowerCase(s: string)
    ensures forall i :: 0 <= i < |s| ==> Lower(s)[i] == LowerChar(s[i]) && !('A' <= Lower(s)[i] <= 'Z')
  {
  }

  /** Two strings that differ only in the case of ASCII letters. */
  predicate SameIgnoringCase(s: string, t: string) {
    |s| == |t| && forall i :: 0 <= i < |s| ==> LowerChar(s[i]) == LowerChar(t[i])
  }

  /** The CSS colour names the renderer assigns. */
  datatype Colour = Green | Red | Orange | Black {
    function Css(): string {
      match this
      case Green => "green"
      case Red => "red"
      case Orange => "orange"
      case Black => "black"
    }
  }

  /** The three statuses the page recognises, already lower-cased. */
  const KnownStatuses: set<string> := {"up", "down", "under maintenance"}

  /** getStatusColor: a switch on the lower-cased status with a default branch. */
  function GetStatusColor(status: string): (c: Colour)
    ensures c == Black <==> Lower(status) !in KnownStatuses
  {
    var s := Lower(status);
    if s == "up" then Green
    else if s == "down" then Red
    else if s == "under maintenance" then Orange
    else Black
  }

  /** The colour depends only on the status up to the case of its letters. */
  lemma ColourIgnoresCase(s: string, t: string)
    requires SameIgnoringCase(s, t)
    ensures GetStatusColor(s) == GetStatusColor(t)
  {
    assert Lower(s) == Lower(t);
  }

  /** Matching lower-cases the status first, so lower-casing it beforehand changes nothing. */
  lemma ColourOfLowered(status: string)
    ensures GetStatusColor(Lower(status)) == GetStatusColor(status)
  {
    ColourIgnoresCase(Lower(status), status);
  }

  /** The CSS names set on the status line are the four strings getStatusColor returns. */
  lemma ColourCss(status: string)
    ensures GetStatusColor(status).Css() == "green" <==> Lower(status) == "up"
    ensures GetStatusColor(status).Css() == "red" <==> Lower(status) == "down"
    ensures GetStatusColor(status).Css() == "orange" <==> Lower(status) == "under maintenance"
    ensures GetStatusColor(status).Css() == "black" <==> Lower(status) !in KnownStatuses
  {
  }

  /** The mapping is total: each of the four colours is chosen by exactly this set of statuses. */
  lemma ColourCases(status: string)
    ensures GetStatusColor(status) == Green <==> SameIgnoringCase(status, "up")
    ensures GetStatusColor(status) == Red <==> SameIgnoringCase(status, "down")
    ensures GetStatusColor(status) == Orange <==> SameIgnoringCase(status, "under maintenance")
    ensures GetStatusColor(status) == Black <==>
      !SameIgnoringCase(status, "up") && !SameIgnoringCase(status, "down") &&
      !SameIgnoringCase(status, "under maintenance")
  {
    SameIgnoringCaseMeansSameLower(status, "up");
    SameIgnoringCaseMeansSameLower(status, "down");
    SameIgnoringCaseMeansSameLower(status, "under maintenance");
  }

  /** For a target already in lower case, matching it ignoring case is comparing lower-cased forms. */
  lemma SameIgnoringCaseMeansSameLower(s: string, lit: string)
    requires Lower(lit) == lit
    ensures SameIgnoringCase(s, lit) <==> Lower(s) == lit
  {
    if Lower(s) == lit {
      assert forall i :: 0 <= i < |s| ==> LowerChar(lit[i]) == lit[i] by {
        forall i | 0 <= i < |s| ensures LowerChar(lit[i]) == lit[i] {
          assert Lower(lit)[i] == LowerChar(lit[i]);
        }
      }
    }
    if SameIgnoringCase(s, lit) {
      assert forall i :: 0 <= i < |s| ==> Lower(s)[i] == lit[i] by {
        forall i | 0 <= i < |s| ensures Lower(s)[i] == lit[i] {
          assert Lower(lit)[i] == LowerChar(lit[i]);
        }
      }
    }
  }

  /** The statuses the page shows: any spelling of "up", "down" and "under maintenance". */
  lemma ExampleColours()
    ensures GetStatusColor("UP") == GetStatusColor("Up") == GetStatusColor("up") == Green
    ensures GetStatusColor("Down") == Red
    ensures GetStatusColor("Under Maintenance") == Orange
    ensures GetStatusColor("offline") == Black && GetStatusColor("") == Black
  {
    ColourCases("UP");
    ColourCases("Up");
    ColourCases("up");
    ColourCases("Down");
    ColourCases("Under Maintenance");
  }
}
