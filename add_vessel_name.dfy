/** addVesselName.py: naming the vessel of each GGC row from the two-letter
    code at characters 13-14 of its photo label, and adding it as the row's
    `Vessel` field. */
module AddVesselName {
  import opened PyResult
  import opened PyStr
  import opened PyDict
  import opened Rows

  /** `vesselDict`: two-letter code to vessel name. */
  const VesselCodes: map<string, string> := map[
    "MA" := "MARINER", "SE" := "SEEKER", "SO" := "SOUNDER",
    "EX" := "EXPLORER", "NA" := "NAVIGATOR", "UN" := "UNKNOWN"
  ]

  /** The six names a vessel can have. */
  const VesselNames: set<string> := {"MARINER", "SEEKER", "SOUNDER", "EXPLORER", "NAVIGATOR", "UNKNOWN"}

  /** `getVesselName(label)`: look up `label[13:15]` in the code table; a code
      that is not in the table, or a label too short to hold one, raises KeyError. */
  function GetVesselName(photoLabel: string): (r: Result<string>)
    ensures r.Ok? <==> |photoLabel| >= 15 && photoLabel[13..15] in VesselCodes
    ensures r.Ok? ==> r.value == VesselCodes[photoLabel[13..15]] && r.value in VesselNames
    ensures r.Err? ==> r.error == KeyError(Slice(photoLabel, 13, 15))
  {
    var code := Slice(photoLabel, 13, 15);
    if code in VesselCodes then
      assert |code| == 2 && code == photoLabel[13..15];
      Ok(VesselCodes[code])
    else Err(KeyError(code))
  }

  /** The name depends on characters 13 and 14 only. */
  lemma VesselNameByCode(a: string, b: string)
    requires |a| >= 15 && |b| >= 15 && a[13..15] == b[13..15]
    ensures GetVesselName(a) == GetVesselName(b)
  {
    assert Slice(a, 13, 15) == a[13..15] && Slice(b, 13, 15) == b[13..15];
  }

  /** The code table is exact and case-sensitive: these six upper-case codes and no others. */
  lemma VesselCodeKeys()
    ensures VesselCodes.Keys == {"MA", "SE", "SO", "EX", "NA", "UN"}
    ensures "ma" !in VesselCodes && "Ma" !in VesselCodes
  {
  }

  /** Each of the six names belongs to exactly one code. */
  lemma VesselCodeNames()
    ensures VesselCodes.Values == VesselNames
    ensures forall a, b :: a in VesselCodes && b in VesselCodes && a != b ==> VesselCodes[a] != VesselCodes[b]
  {
    assert VesselCodes["MA"] == "MARINER" && VesselCodes["SE"] == "SEEKER" && VesselCodes["SO"] == "SOUNDER";
    assert VesselCodes["EX"] == "EXPLORER" && VesselCodes["NA"] == "NAVIGATOR" && VesselCodes["UN"] == "UNKNOWN";
  }

  /** The body of the tagging loop for one row: `d['Vessel'] = getVesselName(d['Photo_Label'])`.
      The label is used as it is, without stripping. */
  function TagRow(row: Row): (r: Result<Row>)
    ensures r.Err? <==> "Photo_Label" !in row.entries || GetVesselName(row.entries["Photo_Label"]).Err?
    ensures "Photo_Label" !in row.entries ==> r == Err(KeyError("Photo_Label"))
    ensures "Photo_Label" in row.entries && r.Err? ==>
              r.error == KeyError(Slice(row.entries["Photo_Label"], 13, 15))
    ensures r.Ok? ==>
              && r.value.Get("Vessel") == GetVesselName(row.entries["Photo_Label"])
              && (forall f :: f != "Vessel" ==> r.value.Get(f) == row.Get(f))
              && r.value.keys == (if "Vessel" in row.entries then row.keys else row.keys + ["Vessel"])
              && (row.Valid() ==> r.value.Valid())
  {
    var photoLabel :- row.Get("Photo_Label");
    var vessel :- GetVesselName(photoLabel);
    Ok(row.Set("Vessel", vessel))
  }

  /** The tagging loop of `main`: `for d in data: d['Vessel'] = ...`, updating
      every row in place, in order, and stopping at the first row that raises. */
  method TagVessels(rows: array<Row>) returns (outcome: Outcome)
    modifies rows
    ensures (rows[..], outcome) == ApplyRows(old(rows[..]), TagRow)
  {
    ghost var before := rows[..];
    var i := 0;
    while i < rows.Length
      invariant 0 <= i <= rows.Length
      invariant forall j :: 0 <= j < i ==> TagRow(before[j]).Ok? && rows[j] == TagRow(before[j]).value
      invariant forall j :: i <= j < rows.Length ==> rows[j] == before[j]
    {
      var r := TagRow(rows[i]);
      if r.Err? {
        ApplyRowsStoppedAt(before, TagRow, rows[..], i);
        return Raised(r.error);
      }
      rows[i] := r.value;
      i := i + 1;
    }
    ApplyRowsStoppedAt(before, TagRow, rows[..], i);
    return Completed;
  }

  /** After tagging completes, the list has the same length and order, every
      row's `Vessel` is the name for its label's code, and its other fields
      are unchanged. */
  lemma TaggedRows(rows: seq<Row>)
    requires ApplyRows(rows, TagRow).1 == Completed
    ensures var out := ApplyRows(rows, TagRow).0;
            && |out| == |rows|
            && forall i :: 0 <= i < |rows| ==>
                 && "Photo_Label" in rows[i].entries
                 && GetVesselName(rows[i].entries["Photo_Label"]).Ok?
                 && out[i].Get("Vessel") == GetVesselName(rows[i].entries["Photo_Label"])
                 && out[i].Get("Vessel").value in VesselNames
                 && forall f :: f != "Vessel" ==> out[i].Get(f) == rows[i].Get(f)
  {
    ApplyRowsEffect(rows, TagRow);
    ApplyRowsCompletes(rows, TagRow);
  }

  /** Tagging that reaches a row whose label holds no known code raises
      KeyError of the label's characters 13-14: the rows before it are
      tagged, it and the rows after are untouched. */
  lemma TagStopsAtUnknownCode(rows: seq<Row>, k: nat)
    requires k < |rows|
    requires forall i :: 0 <= i < k ==> TagRow(rows[i]).Ok?
    requires "Photo_Label" in rows[k].entries
    requires GetVesselName(rows[k].entries["Photo_Label"]).Err?
    ensures var (out, outcome) := ApplyRows(rows, TagRow);
            && outcome == Raised(KeyError(Slice(rows[k].entries["Photo_Label"], 13, 15)))
            && |out| == |rows|
            && (forall i :: 0 <= i < k ==> out[i] == TagRow(rows[i]).value)
            && (forall i :: k <= i < |rows| ==> out[i] == rows[i])
  {
    ApplyRowsStopsAt(rows, TagRow, k);
  }
}
