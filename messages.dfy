/**
 * Message generation of the ClearedDCT page: an ICAO FPL message built from
 * all 21 fields of a flight plan, and the short messages (DLA, DEP, ARR, CNL,
 * CHG, SVC, ALR, DET, INC) built from item 7, the departure and destination
 * aerodromes and a free-text addition, with their separators normalised.
 * A field the record lacks is a Python KeyError, modelled as MissingField.
 */
module Messages {
  import opened Wrappers
  import opened FlightPlans
  import opened PyStrings

  /** The message types the page's select box offers. */
  datatype MessageType = FPL | DLA | DEP | ARR | CNL | CHG | SVC | ALR | DET | INC
  {
    function Name(): (r: string)
      ensures |r| == 3 && '-' !in r
    {
      match this
      case FPL => "FPL"
      case DLA => "DLA"
      case DEP => "DEP"
      case ARR => "ARR"
      case CNL => "CNL"
      case CHG => "CHG"
      case SVC => "SVC"
      case ALR => "ALR"
      case DET => "DET"
      case INC => "INC"
    }

    /** Whether the page shows the "Additional Info" input for this type. */
    predicate AsksAdditional() {
      this in {DLA, DEP, ARR, CHG, SVC, ALR, DET, INC}
    }
  }

  /** Index of the first code of `codes` that `fp` lacks, or |codes| when it has them all. */
  function FirstMissing(fp: Record, codes: seq<string>): (i: nat)
    ensures i <= |codes|
    ensures forall j :: 0 <= j < i ==> codes[j] in fp
    ensures i < |codes| ==> codes[i] !in fp
  {
    if codes == [] then 0
    else if codes[0] !in fp then 0
    else 1 + FirstMissing(fp, codes[1..])
  }

  // The FPL template, item by item (items 8 to 19 of the ICAO flight plan).

  function Item8(fp: Record): string requires HasAllFields(fp) {
    fp["8"] + fp["8_type"]
  }

  function Item9(fp: Record): string requires HasAllFields(fp) {
    fp["9"] + "/" + fp["9_wtc"]
  }

  function Item10(fp: Record): string requires HasAllFields(fp) {
    fp["10"] + "/" + fp["10_ssr"]
  }

  function Item13(fp: Record): string requires HasAllFields(fp) {
    fp["13"] + fp["13_eobt"]
  }

  function Item15(fp: Record): string requires HasAllFields(fp) {
    fp["15_speed"] + fp["15_level"] + " " + fp["15_route"]
  }

  function Item16(fp: Record): string requires HasAllFields(fp) {
    fp["16_dest"] + fp["16_eet"] + " " + fp["16_alt1"] + " " + fp["16_alt2"]
  }

  /** Item 19 up to, not including, the pilot in command. */
  function Item19(fp: Record): string requires HasAllFields(fp) {
    "E/" + fp["19_endurance"] + " - P/" + fp["19_pob"] + " - AC/" + fp["19_color"]
  }

  /** Items 8 to 19 of the FPL template, between item 7 and the pilot in command. */
  function FplItems(fp: Record): string
    requires HasAllFields(fp)
  {
    Item8(fp) + " - " + Item9(fp) + "-" + Item10(fp) + " - " + Item13(fp) + " - " + Item15(fp)
    + " - " + Item16(fp) + " - " + fp["18"] + " - " + Item19(fp)
  }

  /** The FPL template over a record that has every field. */
  function FplText(fp: Record): string
    requires HasAllFields(fp)
  {
    "(FPL-" + fp[Ident] + "-" + FplItems(fp) + " - PIC/" + fp["19_pilot"] + ")"
  }

  /**
   * The FPL message, or the KeyError of the first field the template reads
   * and the record lacks (the template reads the fields in FieldCodes order).
   */
  function Fpl(fp: Record): (r: Result<string, Error>)
    ensures r.Success? <==> HasAllFields(fp)
    ensures r.Failure? ==>
      var i := FirstMissing(fp, FieldCodes);
      i < |FieldCodes| && r.error == MissingField(FieldCodes[i])
  {
    FieldCodesComplete(fp);
    var i := FirstMissing(fp, FieldCodes);
    if i < |FieldCodes| then Failure(MissingField(FieldCodes[i])) else Success(FplText(fp))
  }

  /** The fields a short message reads, in reading order: item 7 and the two aerodromes. */
  const ShortCodes: seq<string> := [Ident, "13", "16_dest"]

  /** The position FirstMissing reports among the short message's fields. */
  lemma ShortCodesOrder(fp: Record)
    ensures FirstMissing(fp, ShortCodes)
      == if Ident !in fp then 0 else if "13" !in fp then 1 else if "16_dest" !in fp then 2 else 3
  {
    var c := ShortCodes;
    assert c[1..] == ["13", "16_dest"] && c[1..][1..] == ["16_dest"] && c[1..][1..][1..] == [];
    assert FirstMissing(fp, c[1..][1..]) == if "16_dest" !in fp then 0 else 1;
    assert FirstMissing(fp, c[1..]) == if "13" !in fp then 0 else if "16_dest" !in fp then 1 else 2;
  }

  /** A record holding every field a short message reads. */
  predicate HasShortFields(fp: Record) {
    Ident in fp && "13" in fp && "16_dest" in fp
  }

  /** The text of a short message before normalisation. */
  function RawShort(t: MessageType, id: string, dep: string, dest: string, additional: string): string {
    t.Name() + "-" + id + "-" + dep + "-" + dest + "-" + additional
  }

  /** Python `raw.replace("--", "-").strip("-")`. */
  function Normalise(raw: string): (r: string)
    ensures |r| <= |raw|
    ensures r == [] || (r[0] != '-' && r[|r| - 1] != '-')
  {
    StripDashes(ReplaceDoubleDash(raw))
  }

  /** A short message, or the KeyError of the first of its fields, in reading order, that the record lacks. */
  function Short(fp: Record, t: MessageType, additional: string): (r: Result<string, Error>)
    ensures r.Success? <==> HasShortFields(fp)
    ensures r.Failure? ==>
      var i := FirstMissing(fp, ShortCodes);
      i < |ShortCodes| && r.error == MissingField(ShortCodes[i])
    ensures r.Success? ==> |r.value| <= |RawShort(t, fp[Ident], fp["13"], fp["16_dest"], additional)|
    ensures r.Success? ==> r.value == [] || (r.value[0] != '-' && r.value[|r.value| - 1] != '-')
  {
    ShortCodesOrder(fp);
    if Ident !in fp then Failure(MissingField(Ident))
    else if "13" !in fp then Failure(MissingField("13"))
    else if "16_dest" !in fp then Failure(MissingField("16_dest"))
    else Success(Normalise(RawShort(t, fp[Ident], fp["13"], fp["16_dest"], additional)))
  }

  /**
   * "Generate Message": FPL for the FPL type, a short message otherwise; the
   * typed addition is used only where the page shows its input.
   */
  function Format(fp: Record, t: MessageType, entered: string): (r: Result<string, Error>)
    ensures t.FPL? ==> r == Fpl(fp) && (r.Success? <==> HasAllFields(fp))
    ensures !t.FPL? ==> r == Short(fp, t, if t.AsksAdditional() then entered else "")
    ensures !t.FPL? ==> (r.Success? <==> HasShortFields(fp))
  {
    if t.FPL? then Fpl(fp)
    else
      var additional := if t.AsksAdditional() then entered else "";
      Short(fp, t, additional)
  }

  /** A record saved through the creation form formats for every message type. */
  lemma CompleteRecordFormats(fp: Record, t: MessageType, entered: string)
    requires HasAllFields(fp)
    ensures Format(fp, t, entered).Success?
  {
  }

  /** The FPL message opens with "(FPL-" and item 7 and closes with the pilot in command and ")". */
  lemma {:induction false} FplFrame(fp: Record)
    requires HasAllFields(fp)
    ensures var m := Fpl(fp).value;
      var head := "(FPL-" + fp[Ident] + "-";
      var tail := " - PIC/" + fp["19_pilot"] + ")";
      |m| >= |head| + |tail| && m[..|head|] == head && m[|m| - |tail|..] == tail
  {
    var m := Fpl(fp).value;
    var head := "(FPL-" + fp[Ident] + "-";
    var tail := " - PIC/" + fp["19_pilot"] + ")";
    assert m == head + FplItems(fp) + tail;
    assert m[..|head|] == head;
    assert m[|m| - |tail|..] == tail;
  }

  /**
   * Item 18 goes into the FPL message as entered: a line break typed into the
   * remarks is a line break inside the message.
   */
  lemma {:induction false} FplKeepsRemarkNewline(fp: Record)
    requires HasAllFields(fp) && '\n' in fp["18"]
    ensures '\n' in Fpl(fp).value
  {
    var front := Item8(fp) + " - " + Item9(fp) + "-" + Item10(fp) + " - " + Item13(fp) + " - " + Item15(fp)
      + " - " + Item16(fp) + " - ";
    var items := front + fp["18"] + (" - " + Item19(fp));
    assert FplItems(fp) == items;
    var head := "(FPL-" + fp[Ident] + "-";
    var m := head + items + (" - PIC/" + fp["19_pilot"] + ")");
    assert Fpl(fp).value == m;
    var k :| 0 <= k < |fp["18"]| && fp["18"][k] == '\n';
    assert m[|head| + |front| + k] == '\n';
  }

  /** The FPL and CNL messages ignore whatever was typed as an addition. */
  lemma AdditionalIgnored(fp: Record, t: MessageType, entered: string)
    requires !t.AsksAdditional()
    ensures Format(fp, t, entered) == Format(fp, t, "")
  {
  }

  /** Before stripping, each maximal run of n dashes of the raw text is left as ceil(n/2) dashes. */
  lemma ShortCollapsesRuns(fp: Record, t: MessageType, additional: string)
    requires HasShortFields(fp)
    ensures Short(fp, t, additional).value
      == StripDashes(CollapseRuns(RawShort(t, fp[Ident], fp["13"], fp["16_dest"], additional)))
  {
    ReplaceIsCollapseRuns(RawShort(t, fp[Ident], fp["13"], fp["16_dest"], additional));
  }

  /** A short message starts with the name of its type. */
  lemma {:induction false} ShortStartsWithType(fp: Record, t: MessageType, additional: string)
    requires HasShortFields(fp)
    ensures var m := Short(fp, t, additional).value;
      |m| >= 3 && m[..3] == t.Name()
  {
    var name := t.Name();
    var rest := "-" + fp[Ident] + "-" + fp["13"] + "-" + fp["16_dest"] + "-" + additional;
    var raw := RawShort(t, fp[Ident], fp["13"], fp["16_dest"], additional);
    assert raw == name + rest;
    ReplaceKeepsDashFreePrefix(name, rest);
    StripKeepsDashFreePrefix(name, ReplaceDoubleDash(rest));
  }

  /** The replace pass leaves separators between non-empty dash-free fields alone. */
  lemma {:induction false} ReplaceWellFormed(name: string, id: string, dep: string, dest: string, tail: string)
    requires name != [] && id != [] && dep != [] && dest != []
    requires '-' !in name && '-' !in id && '-' !in dep && '-' !in dest
    ensures ReplaceDoubleDash(name + "-" + id + "-" + dep + "-" + dest + tail)
      == name + "-" + id + "-" + dep + "-" + dest + ReplaceDoubleDash(tail)
  {
    var p1 := name + "-" + id;
    var p2 := p1 + "-" + dep;
    var p3 := p2 + "-" + dest;
    ReplaceKeepsDashFreePrefix(name, []);
    assert name + [] == name;
    assert ReplaceDoubleDash(name) == name;
    ReplaceAppendField(name, id);
    assert p1[|p1| - 1] == id[|id| - 1];
    ReplaceAppendField(p1, dep);
    assert p2[|p2| - 1] == dep[|dep| - 1];
    ReplaceAppendField(p2, dest);
    assert p3[|p3| - 1] == dest[|dest| - 1];
    ReplaceConcat(p3, tail);
  }

  /**
   * Normalising fields that are non-empty and dash-free changes nothing but
   * the dangling separator an empty addition leaves.
   */
  lemma {:induction false} NormaliseWellFormed(t: MessageType, id: string, dep: string, dest: string, additional: string)
    requires id != [] && dep != [] && dest != []
    requires '-' !in id && '-' !in dep && '-' !in dest && '-' !in additional
    ensures Normalise(RawShort(t, id, dep, dest, additional))
      == t.Name() + "-" + id + "-" + dep + "-" + dest + (if additional == "" then "" else "-" + additional)
  {
    var name := t.Name();
    var tail := "-" + additional;
    var body := name + "-" + id + "-" + dep + "-" + dest;
    assert RawShort(t, id, dep, dest, additional) == body + tail;
    ReplaceWellFormed(name, id, dep, dest, tail);
    assert body[0] == name[0] && body[|body| - 1] == dest[|dest| - 1];
    if additional == "" {
      assert tail == "-";
      assert ReplaceDoubleDash(tail) == "-";
      StripOneTrailing(body);
    } else {
      ReplaceKeepsField(additional, "");
      assert tail + "" == tail;
      var replaced := body + tail;
      assert replaced[|replaced| - 1] == additional[|additional| - 1];
      StripUnchanged(replaced);
    }
  }

  /** A string that neither starts nor ends with a dash is its own strip. */
  lemma StripUnchanged(s: string)
    requires s != [] && s[0] != '-' && s[|s| - 1] != '-'
    ensures StripDashes(s) == s
  {
    assert StripLeading(s) == s;
  }

  /** Stripping a string that starts and ends with non-dashes, plus one trailing dash. */
  lemma StripOneTrailing(s: string)
    requires s != [] && s[0] != '-' && s[|s| - 1] != '-'
    ensures StripDashes(s + "-") == s
  {
    var u := s + "-";
    assert u[0] == s[0];
    assert StripLeading(u) == u;
    assert u[..|u| - 1] == s;
  }

  /** A short message of well-formed fields reads `type-id-dep-dest[-additional]`. */
  lemma ShortWellFormed(fp: Record, t: MessageType, additional: string)
    requires HasShortFields(fp)
    requires fp[Ident] != [] && fp["13"] != [] && fp["16_dest"] != []
    requires '-' !in fp[Ident] && '-' !in fp["13"] && '-' !in fp["16_dest"] && '-' !in additional
    ensures Short(fp, t, additional).value
      == t.Name() + "-" + fp[Ident] + "-" + fp["13"] + "-" + fp["16_dest"]
         + (if additional == "" then "" else "-" + additional)
  {
    NormaliseWellFormed(t, fp[Ident], fp["13"], fp["16_dest"], additional);
  }

  /** A sample departure message without an addition. */
  lemma DepartureSample(fp: Record)
    requires HasShortFields(fp) && fp[Ident] == "N123AB" && fp["13"] == "KPAO" && fp["16_dest"] == "KSQL"
    ensures Format(fp, DEP, "") == Success("DEP-N123AB-KPAO-KSQL")
  {
    assert '-' !in fp[Ident] && '-' !in fp["13"] && '-' !in fp["16_dest"];
    ShortWellFormed(fp, DEP, "");
    JoinDepartureSample(DEP.Name(), fp[Ident], fp["13"], fp["16_dest"], Short(fp, DEP, "").value);
  }

  /** The sample's fields joined by single separators. */
  lemma JoinDepartureSample(name: string, id: string, dep: string, dest: string, m: string)
    requires name == "DEP" && id == "N123AB" && dep == "KPAO" && dest == "KSQL"
    requires m == name + "-" + id + "-" + dep + "-" + dest + ""
    ensures m == "DEP-N123AB-KPAO-KSQL"
  {
  }

  /** A dash-free name and identification joined by one separator pass the replace unchanged. */
  lemma ReplaceNameAndId(name: string, id: string)
    requires name != [] && id != [] && '-' !in name && '-' !in id
    ensures ReplaceDoubleDash(name + "-" + id) == name + "-" + id
  {
    ReplaceKeepsDashFreePrefix(name, []);
    assert name + [] == name;
    ReplaceAppendField(name, id);
  }

  /** Three separators before a dash-free field become two. */
  lemma ReplaceTripleSeparator(a: string)
    requires a != [] && '-' !in a
    ensures ReplaceDoubleDash("---" + a) == "--" + a
  {
    ShortDashes();
    ReplaceRun(3, a);
    ReplaceDashFree(a);
  }

  /** The raw short message with both aerodromes empty, split after the identification. */
  lemma RawShortEmptyAerodromes(t: MessageType, id: string, additional: string)
    ensures RawShort(t, id, "", "", additional) == (t.Name() + "-" + id) + ("---" + additional)
  {
  }

  /**
   * Empty departure and destination aerodromes leave three separators in a
   * row; the replace pass turns them into two, which strip does not reach.
   */
  lemma EmptyAerodromesText(t: MessageType, id: string, additional: string)
    requires id != [] && additional != []
    requires '-' !in id && '-' !in additional
    ensures Normalise(RawShort(t, id, "", "", additional)) == t.Name() + "-" + id + "--" + additional
  {
    var front := t.Name() + "-" + id;
    RawShortEmptyAerodromes(t, id, additional);
    ReplaceNameAndId(t.Name(), id);
    ReplaceTripleSeparator(additional);
    assert front[|front| - 1] == id[|id| - 1];
    ReplaceConcat(front, "---" + additional);
    var m := front + ("--" + additional);
    assert m[0] == front[0] && m[|m| - 1] == additional[|additional| - 1];
    StripUnchanged(m);
    RegroupHead(front, "--", additional, m, front + "--");
  }

  /** A message with both aerodromes empty keeps a doubled separator in place of them. */
  lemma DoubledSeparatorSurvives(fp: Record, t: MessageType, entered: string)
    requires HasShortFields(fp) && fp["13"] == "" && fp["16_dest"] == ""
    requires fp[Ident] != [] && '-' !in fp[Ident]
    requires t.AsksAdditional() && entered != [] && '-' !in entered
    ensures Format(fp, t, entered) == Success(t.Name() + "-" + fp[Ident] + "--" + entered)
  {
    EmptyAerodromesText(t, fp[Ident], entered);
  }

  /**
   * With both alternates and the remarks empty, item 16 ends in two spaces and
   * the empty item 18 leaves "   -  - " before item 19.
   */
  lemma FplEmptyFieldsSpacing(fp: Record)
    requires HasAllFields(fp) && fp["16_alt1"] == "" && fp["16_alt2"] == "" && fp["18"] == ""
    ensures FplItems(fp)
      == Item8(fp) + " - " + Item9(fp) + "-" + Item10(fp) + " - " + Item13(fp) + " - " + Item15(fp)
         + " - " + fp["16_dest"] + fp["16_eet"] + "   -  - " + Item19(fp)
  {
    var front := Item8(fp) + " - " + Item9(fp) + "-" + Item10(fp) + " - " + Item13(fp) + " - " + Item15(fp) + " - ";
    var dest := fp["16_dest"] + fp["16_eet"];
    assert Item16(fp) == dest + "  ";
    assert FplItems(fp) == front + (dest + "  ") + " - " + "" + " - " + Item19(fp);
    assert (dest + "  ") + " - " + "" + " - " == dest + "   -  - ";
  }
}
