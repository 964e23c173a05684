/**
 * The address block of a business page (scraper.py:177-191): the texts of the
 * `<p>` elements inside `<address>`, split into street, unit and the combined
 * city/state/postal-code line by the "Main Floor" heuristic.
 */
module Address {
  import opened Wrappers
  import opened Text
  import opened Seqs

  /** The literal that marks the paragraph after it as the unit line. */
  const UnitMarker := "Main Floor"

  datatype AddressFields = AddressFields(street: Option<string>, unit: Option<string>, cityStatePostal: Option<string>)

  /** What the `except` branch stores: all three fields `None`. */
  const NoAddress := AddressFields(None, None, None)

  predicate HasMarker(p: string)
  {
    Contains(p, UnitMarker)
  }

  /** `next((i for i, p in enumerate(paragraphs) if "Main Floor" in p.text), None)` */
  function FirstMarker(paragraphs: seq<string>): (r: Option<nat>)
    ensures r.Some? ==> r.value < |paragraphs| && HasMarker(paragraphs[r.value])
    ensures forall j | 0 <= j < (if r.Some? then r.value else |paragraphs|) :: !HasMarker(paragraphs[j])
  {
    FirstWhere(paragraphs, HasMarker)
  }

  /**
   * The address fields of a page; `None` input means the `<address>` element
   * was not found. Any index out of range (no first paragraph, no line after
   * the marker, no second paragraph) makes all three fields `None`, even
   * though the street had already been stored.
   */
  function SplitAddress(paragraphs: Option<seq<string>>): (a: AddressFields)
    ensures a.street.Some? <==> a.cityStatePostal.Some?
    ensures a.unit.Some? ==> a.street.Some?
  {
    match paragraphs
    case None => NoAddress
    case Some(ps) =>
      if |ps| == 0 then NoAddress
      else match FirstMarker(ps)
        case Some(i) =>
          if i + 2 < |ps| then AddressFields(Some(Strip(ps[0])), Some(Strip(ps[i + 1])), Some(Strip(ps[i + 2])))
          else NoAddress
        case None =>
          if 2 <= |ps| then AddressFields(Some(Strip(ps[0])), None, Some(Strip(ps[1])))
          else NoAddress
  }

  /** Without any marker, the second paragraph is the city line and there is no unit. */
  lemma AddressWithoutMarker(ps: seq<string>)
    requires |ps| >= 2
    requires forall j | 0 <= j < |ps| :: !HasMarker(ps[j])
    ensures SplitAddress(Some(ps)) == AddressFields(Some(Strip(ps[0])), None, Some(Strip(ps[1])))
  {
    assert FirstMarker(ps).None?;
  }

  /**
   * With the first marker at index `i` (possibly the street line itself), the
   * two paragraphs after it are the unit and the city line.
   */
  lemma AddressWithMarker(ps: seq<string>, i: nat)
    requires i + 2 < |ps| && HasMarker(ps[i])
    requires forall j | 0 <= j < i :: !HasMarker(ps[j])
    ensures SplitAddress(Some(ps)) == AddressFields(Some(Strip(ps[0])), Some(Strip(ps[i + 1])), Some(Strip(ps[i + 2])))
  {
    assert FirstMarker(ps) == Some(i);
  }

  /** The fields are all present or all absent, and exactly when the indexing fails. */
  lemma {:induction false} AddressAllOrNothing(ps: seq<string>)
    ensures SplitAddress(Some(ps)).street.None?
        <==> ((|ps| < 2 && forall j | 0 <= j < |ps| :: !HasMarker(ps[j]))
              || exists i | 0 <= i < |ps| :: HasMarker(ps[i]) && (forall j | 0 <= j < i :: !HasMarker(ps[j])) && |ps| <= i + 2)
    ensures SplitAddress(Some(ps)).street.None? ==> SplitAddress(Some(ps)) == NoAddress
  {
    match FirstMarker(ps)
    case None =>
    case Some(i) =>
      forall k | 0 <= k < |ps| && HasMarker(ps[k]) && (forall j | 0 <= j < k :: !HasMarker(ps[j]))
        ensures k == i
      {
      }
  }

  /**
   * The layout with a "Main Floor" line: the unit and the city line follow it.
   * The example lemmas take their literal lines as parameters fixed by
   * `requires`: Dafny unfolds a recursive function (`Strip`, `Contains`)
   * applied to a literal string without bound, and the literals written into
   * the postcondition exceed the verifier's resource limit.
   */
  lemma AddressExampleWithUnit(ps: seq<string>)
    requires ps == ["123 Main St", "Main Floor", "Unit 4", "Toronto, ON M1M1M1"]
    ensures SplitAddress(Some(ps)) == AddressFields(Some("123 Main St"), Some("Unit 4"), Some("Toronto, ON M1M1M1"))
  {
    ExampleMarkers(ps);
    AddressWithMarker(ps, 1);
    ExampleLinesUnpadded(ps);
  }

  lemma ExampleMarkers(ps: seq<string>)
    requires ps == ["123 Main St", "Main Floor", "Unit 4", "Toronto, ON M1M1M1"]
    ensures !HasMarker(ps[0]) && HasMarker(ps[1])
  {
    assert ps[0][0] == '1' && ps[0][1] == '2';
    NotContainsWithoutHead(ps[0], UnitMarker);
    assert ps[1][0..|ps[1]|] == ps[1] == UnitMarker;
    assert OccursAt(ps[1], UnitMarker, 0);
  }

  lemma ExampleLinesUnpadded(ps: seq<string>)
    requires ps == ["123 Main St", "Main Floor", "Unit 4", "Toronto, ON M1M1M1"]
    ensures Strip(ps[0]) == ps[0] && Strip(ps[2]) == ps[2] && Strip(ps[3]) == ps[3]
  {
    assert Strip(ps[0]) == ps[0] by { StripUnpadded(ps[0]); }
    assert Strip(ps[2]) == ps[2] by { StripUnpadded(ps[2]); }
    assert Strip(ps[3]) == ps[3] by { StripUnpadded(ps[3]); }
  }

  /** The layout without a marker: the second line is the city line and there is no unit. */
  lemma AddressExampleWithoutUnit(ps: seq<string>)
    requires ps == ["123 Main St", "Toronto, ON M1M1M1"]
    ensures SplitAddress(Some(ps)) == AddressFields(Some("123 Main St"), None, Some("Toronto, ON M1M1M1"))
  {
    assert ps[0][0] == '1' && ps[0][1] == '2';
    NotContainsWithoutHead(ps[0], UnitMarker);
    NotContainsWithoutHead(ps[1], UnitMarker);
    assert !HasMarker(ps[0]) && !HasMarker(ps[1]);
    AddressWithoutMarker(ps);
    StripUnpadded(ps[0]);
    StripUnpadded(ps[1]);
  }
}
