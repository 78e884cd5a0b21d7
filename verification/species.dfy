/** Species-list coercions. The frontend's `normalizeSpecies` turns the detected-biota field
    into a list of names; the backend turns it back and forth between a list and a
    comma-separated string around its prediction model, and counts its pieces. */
module Species {
  import opened Text
  import opened Seqs
  import opened Records
  import opened Wrappers

  predicate NonEmpty(s: string)
  {
    s != ""
  }

  /** Each comma-separated piece of `s`, trimmed with the given white-space class. */
  function TrimmedPieces(s: string, isSpace: char -> bool): (pieces: seq<string>)
    ensures |pieces| == CountChar(s, ',') + 1
    ensures forall i :: 0 <= i < |pieces| ==> CleanName(pieces[i], isSpace) || pieces[i] == ""
  {
    var parts := Split(s, ',');
    var pieces := seq(|parts|, i requires 0 <= i < |parts| => Trim(parts[i], isSpace));
    forall i | 0 <= i < |pieces|
      ensures CleanName(pieces[i], isSpace) || pieces[i] == ""
    {
      TrimmedPieceClean(parts[i], isSpace);
    }
    pieces
  }

  /** A comma-free piece, once trimmed, is empty or a clean name. */
  lemma TrimmedPieceClean(p: string, isSpace: char -> bool)
    requires ',' !in p
    ensures var t := Trim(p, isSpace); t == "" || CleanName(t, isSpace)
  {
    TrimKeepsOut(p, isSpace, ',');
  }

  /** A species name as the string coercions produce it: non-empty, free of commas and
      without white space at either end. */
  predicate CleanName(n: string, isSpace: char -> bool)
  {
    n != "" && ',' !in n && !isSpace(n[0]) && !isSpace(n[|n| - 1])
  }

  /** Split on commas, trim every piece, drop the empty ones; order is kept. */
  function SplitNames(s: string, isSpace: char -> bool): (names: seq<string>)
    ensures forall i :: 0 <= i < |names| ==> CleanName(names[i], isSpace)
    ensures IsSubsequence(names, TrimmedPieces(s, isSpace))
    ensures var pieces := TrimmedPieces(s, isSpace);
      forall i :: 0 <= i < |pieces| && pieces[i] != "" ==> pieces[i] in names
    ensures |names| <= CountChar(s, ',') + 1
    ensures forall x :: multiset(names)[x] == if x == "" then 0 else multiset(TrimmedPieces(s, isSpace))[x]
  {
    var pieces := TrimmedPieces(s, isSpace);
    var names := Filter(pieces, NonEmpty);
    forall i | 0 <= i < |names|
      ensures CleanName(names[i], isSpace)
    {
      assert names[i] in pieces;
    }
    forall x
      ensures multiset(names)[x] == if x == "" then 0 else multiset(pieces)[x]
    {
      FilterCounts(pieces, NonEmpty, x);
    }
    names
  }

  /** `normalizeSpecies`: a falsy field gives no names, a list is passed through unchanged,
      a string is split on commas, trimmed and stripped of empty pieces. */
  function NormalizeSpecies(v: SpeciesField): (names: seq<string>)
    ensures v.Absent? ==> names == []
    ensures v.Joined? && v.text == "" ==> names == []
    ensures v.Listed? ==> names == v.names
    ensures v.Joined? ==> forall i :: 0 <= i < |names| ==> CleanName(names[i], IsJsSpace)
    ensures v.Joined? ==> IsSubsequence(names, TrimmedPieces(v.text, IsJsSpace))
    ensures v.Joined? ==> forall x ::
      multiset(names)[x] == if x == "" then 0 else multiset(TrimmedPieces(v.text, IsJsSpace))[x]
  {
    match v
    case Absent => []
    case Listed(xs) => xs
    case Joined(s) =>
      SplitNamesEmpty(IsJsSpace);
      if s == "" then [] else SplitNames(s, IsJsSpace)
  }

  /** A clean name is its own trim. */
  lemma TrimClean(n: string, isSpace: char -> bool)
    requires CleanName(n, isSpace)
    ensures Trim(n, isSpace) == n
  {
    assert TrimStart(n, isSpace) == n;
    assert TrimEnd(n, isSpace) == n;
  }

  /** A join of at least one non-empty piece is non-empty. */
  lemma JoinNonEmpty(names: seq<string>, sep: string)
    requires |names| > 0 && names[0] != ""
    ensures Join(names, sep) != ""
  {
    if |names| > 1 {
      assert Join(names, sep) == names[0] + sep + Join(names[1..], sep);
      assert Join(names, sep)[0] == names[0][0];
    }
  }

  /** Joining clean names with "," and normalising the string gives the names back. */
  lemma NormalizeJoinRoundTrip(names: seq<string>)
    requires forall i :: 0 <= i < |names| ==> CleanName(names[i], IsJsSpace)
    ensures NormalizeSpecies(Joined(Join(names, ","))) == names
  {
    var s := Join(names, ",");
    if |names| > 0 {
      JoinNonEmpty(names, ",");
      SplitJoin(names, ',');
      var pieces := TrimmedPieces(s, IsJsSpace);
      forall i | 0 <= i < |names|
        ensures pieces[i] == names[i]
      {
        TrimClean(names[i], IsJsSpace);
      }
      assert pieces == names;
      FilterAll(pieces, NonEmpty);
    }
  }

  /** A backend species cell or request field: a Python `str`, a `list` of `str`, or some
      other value (a pandas `NaN`, `None`, a number). */
  datatype PyValue = PyStr(s: string) | PyList(items: seq<string>) | PyOther

  /** No names come out of the empty string. */
  lemma SplitNamesEmpty(isSpace: char -> bool)
    ensures SplitNames("", isSpace) == []
  {
    assert Split("", ',') == [""];
    assert TrimmedPieces("", isSpace) == [""];
  }

  /** `get_map_data`: a string species field (a missing key reads as "") becomes the list of
      its stripped, non-empty comma-separated pieces; any other value is left as it is. */
  function MapDataSpecies(v: Option<PyValue>): (r: PyValue)
    ensures v.None? ==> r == PyList([])
    ensures v.Some? && !v.value.PyStr? ==> r == v.value
    ensures v.Some? && v.value.PyStr? ==>
      && r.PyList?
      && (forall i :: 0 <= i < |r.items| ==> CleanName(r.items[i], IsPySpace))
      && IsSubsequence(r.items, TrimmedPieces(v.value.s, IsPySpace))
      && forall x :: multiset(r.items)[x] == if x == "" then 0 else multiset(TrimmedPieces(v.value.s, IsPySpace))[x]
  {
    SplitNamesEmpty(IsPySpace);
    match v.GetOr(PyStr(""))
    case PyStr(text) => PyList(SplitNames(text, IsPySpace))
    case other => other
  }

  /** Where the two white-space classes agree on every character, the backend's map-data
      coercion and the frontend's `normalizeSpecies` give the same names. */
  lemma MapDataAgreesWithNormalize(text: string)
    requires forall i :: 0 <= i < |text| ==> IsJsSpace(text[i]) == IsPySpace(text[i])
    ensures MapDataSpecies(Some(PyStr(text))) == PyList(NormalizeSpecies(Joined(text)))
  {
    SplitNamesEmpty(IsPySpace);
    var parts := Split(text, ',');
    JoinSplit(text, ',');
    forall i | 0 <= i < |parts|
      ensures Trim(parts[i], IsJsSpace) == Trim(parts[i], IsPySpace)
    {
      forall k | 0 <= k < |parts[i]|
        ensures IsJsSpace(parts[i][k]) == IsPySpace(parts[i][k])
      {
        PieceCharInText(parts, i, k);
      }
      TrimAgrees(parts[i], IsJsSpace, IsPySpace);
    }
    assert TrimmedPieces(text, IsJsSpace) == TrimmedPieces(text, IsPySpace);
  }

  /** Every character of a piece of a split is a character of the split string. */
  lemma PieceCharInText(parts: seq<string>, i: nat, k: nat)
    requires 0 <= i < |parts| && 0 <= k < |parts[i]|
    ensures parts[i][k] in Join(parts, ",")
  {
    if i == 0 {
      if |parts| > 1 {
        assert Join(parts, ",") == parts[0] + "," + Join(parts[1..], ",");
      }
    } else {
      PieceCharInText(parts[1..], i - 1, k);
      assert Join(parts, ",") == parts[0] + "," + Join(parts[1..], ",");
    }
  }

  /** The white-space classes differ: a byte-order mark is trimmed by JavaScript but kept by
      Python, so the two coercions disagree on the string "\uFEFF". */
  lemma MapDataDivergesOnByteOrderMark()
    ensures NormalizeSpecies(Joined("\U{FEFF}")) == []
    ensures MapDataSpecies(Some(PyStr("\U{FEFF}"))) == PyList(["\U{FEFF}"])
  {
    var s := "\U{FEFF}";
    assert Split(s, ',') == [s] by {
      SplitNoSeparator(s, ',');
    }
    assert TrimStart(s, IsJsSpace) == "";
    assert Trim(s, IsPySpace) == s;
    assert TrimmedPieces(s, IsJsSpace) == [""];
    assert TrimmedPieces(s, IsPySpace) == [s];
  }

  /** `predict_rows`: a list becomes its ","-join, a string stays, anything else becomes "". */
  function ModelSpeciesText(v: PyValue): (text: string)
    ensures v.PyStr? ==> text == v.s
    ensures v.PyOther? ==> text == ""
    ensures v.PyList? && |v.items| > 0 && (forall i :: 0 <= i < |v.items| ==> ',' !in v.items[i]) ==>
      Split(text, ',') == v.items
  {
    match v
    case PyList(items) =>
      if |items| > 0 && (forall i :: 0 <= i < |items| ==> ',' !in items[i]) then
        SplitJoin(items, ',');
        Join(items, ",")
      else Join(items, ",")
    case PyStr(text) => text
    case PyOther => ""
  }

  /** `predict_endpoint`: a list field is joined with "," before the rows reach `predict_rows`. */
  function EndpointSpecies(v: PyValue): (r: PyValue)
    ensures !v.PyList? ==> r == v
    ensures v.PyList? ==> r == PyStr(Join(v.items, ","))
  {
    match v
    case PyList(items) => PyStr(Join(items, ","))
    case _ => v
  }

  /** The endpoint's pre-join changes nothing `predict_rows` would not do itself. */
  lemma EndpointThenModel(v: PyValue)
    ensures ModelSpeciesText(EndpointSpecies(v)) == ModelSpeciesText(v)
  {
  }

  /** `eDNA_count` in `prepare_dataset`: 0 for a missing or empty cell, otherwise the number
      of comma-separated pieces, empty and blank pieces included. */
  function EdnaCount(v: Option<string>): (n: nat)
    ensures n == 0 <==> v.GetOr("") == ""
    ensures v.GetOr("") != "" ==> n == CountChar(v.GetOr(""), ',') + 1
  {
    var text := v.GetOr("");
    if text == "" then 0 else |Split(text, ',')|
  }

  /** Counting the pieces of a joined list of comma-free names gives the list length, except
      for the list holding one empty name, whose join is the empty string. */
  lemma EdnaCountOfJoin(items: seq<string>)
    requires forall i :: 0 <= i < |items| ==> ',' !in items[i]
    requires items != [""]
    ensures EdnaCount(Some(ModelSpeciesText(PyList(items)))) == |items|
  {
  }

  /** The frontend never finds more names in a string than the backend counts pieces. */
  lemma NormalizeWithinEdnaCount(text: string)
    ensures |NormalizeSpecies(Joined(text))| <= EdnaCount(Some(text))
  {
  }
}
