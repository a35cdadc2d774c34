/** `parse_osis` and `main` of scripts/osis_to_kjv_jsonl.py: a walk over every element of
    the OSIS document in document order that stores the text of container verses
    (`<verse osisID="...">...</verse>`) and of milestone verses (`<verse sID="..."/>` up to
    `<verse eID="..."/>`) under their references, and then writes the references in
    `sort_key` order. */
module OsisParse {
  import opened Wrappers
  import opened Chars
  import opened Xml
  import opened OsisRefs
  import opened OsisText

  /** The variables `parse_osis` keeps between elements: the open milestone's id (empty
      when none is open), its text so far, its reference, and the verses found. */
  datatype State = State(activeId: string, buf: seq<string>, activeRef: Option<string>, out: map<string, string>)

  const Init: State := State("", [], None, map[])

  /** The text a milestone verse collected, cleaned up. */
  function Collected(buf: seq<string>): string {
    NormalizeText(Concat(buf))
  }

  /** `flush_active()`: stores the open verse's text under its reference when there is a
      reference, some text, and the cleaned text is not empty; then closes the verse. */
  function Flush(st: State): State {
    var out :=
      if st.activeRef.Some? && st.activeRef.value != "" && st.buf != [] && Collected(st.buf) != "" then
        st.out[st.activeRef.value := Collected(st.buf)]
      else st.out;
    State("", [], None, out)
  }

  predicate IsVerse(e: Element) {
    LocalName(e.tag) == "verse"
  }

  /** `osisID and not (sID or eID)` */
  predicate IsContainer(e: Element) {
    IsVerse(e) && Attr(e, "osisID") != "" && Attr(e, "sID") == "" && Attr(e, "eID") == ""
  }

  /** A container verse: its text, with notes skipped and cleaned up, is stored under its
      reference when the id resolves and the text is not empty. */
  function ContainerStep(st: State, e: Element): State {
    var ref := OsisIdToRef(Attr(e, "osisID"));
    if ref.Some? && ref.value != "" && NormalizeText(TextOf(e)) != "" then
      st.(out := st.out[ref.value := NormalizeText(TextOf(e))])
    else st
  }

  /** One pass of the loop over `root.iter()`. */
  function Step(st: State, e: Element): State {
    if IsContainer(e) then ContainerStep(st, e)
    else if IsVerse(e) && Attr(e, "sID") != "" then
      Flush(st).(activeId := Attr(e, "sID"), activeRef := OsisIdToRef(Attr(e, "sID")))
    else if IsVerse(e) && Attr(e, "eID") != "" then
      if st.activeId != "" && Attr(e, "eID") == st.activeId then Flush(st) else st
    else if st.activeId != "" then
      if LocalName(e.tag) == "note" then st
      else st.(buf := st.buf + NonEmpty(e.text) + NonEmpty(e.tail))
    else st
  }

  /** The state after the loop has visited `nodes`. */
  function Steps(nodes: seq<Element>): State {
    if nodes == [] then Init else Step(Steps(nodes[..|nodes| - 1]), nodes[|nodes| - 1])
  }

  /** `parse_osis`: the loop over every element, then the final flush. */
  function ParseOsisSpec(root: Element): map<string, string> {
    Flush(Steps(Preorder(root))).out
  }

  /** The nonlocal variables of `parse_osis`, updated in place. */
  class MilestoneReader {
    var activeId: string
    var activeBuf: seq<string>
    var activeRef: Option<string>
    var out: map<string, string>

    function Current(): State
      reads this
    {
      State(activeId, activeBuf, activeRef, out)
    }

    constructor()
      ensures Current() == Init
    {
      activeId := "";
      activeBuf := [];
      activeRef := None;
      out := map[];
    }

    /** `flush_active()` */
    method FlushActive()
      modifies this
      ensures Current() == Flush(old(Current()))
    {
      if activeRef.Some? && activeRef.value != "" && activeBuf != [] {
        var txt := NormalizeText(Concat(activeBuf));
        if txt != "" {
          out := out[activeRef.value := txt];
        }
      }
      activeId := "";
      activeRef := None;
      activeBuf := [];
    }

    /** A container verse stores its cleaned text under its reference. */
    method StoreContainer(e: Element)
      requires IsContainer(e)
      modifies this
      ensures Current() == ContainerStep(old(Current()), e)
    {
      var ref := OsisIdToRef(Attr(e, "osisID"));
      if ref.Some? && ref.value != "" {
        var text := IterTextExcluding(e);
        var txt := NormalizeText(text);
        if txt != "" {
          out := out[ref.value := txt];
        }
      }
    }

    /** The body of the loop over `root.iter()` for element `e`. */
    method Visit(e: Element)
      modifies this
      ensures Current() == Step(old(Current()), e)
    {
      var tag := LocalName(e.tag);
      if tag == "verse" {
        var osisId := Attr(e, "osisID");
        var sId := Attr(e, "sID");
        var eId := Attr(e, "eID");
        if osisId != "" && !(sId != "" || eId != "") {
          StoreContainer(e);
          return;
        }
        if sId != "" {
          FlushActive();
          activeId := sId;
          activeRef := OsisIdToRef(sId);
          return;
        }
        if eId != "" {
          if activeId != "" && eId == activeId {
            FlushActive();
          }
          return;
        }
      }
      if activeId != "" {
        if tag == "note" {
          return;
        }
        Collect(e);
      }
    }

    /** Inside an open verse, an element's text and tail are kept, when present. */
    method Collect(e: Element)
      modifies this
      ensures Current() == old(Current()).(buf := old(activeBuf) + NonEmpty(e.text) + NonEmpty(e.tail))
    {
      if e.text != "" {
        activeBuf := activeBuf + [e.text];
      }
      if e.tail != "" {
        activeBuf := activeBuf + [e.tail];
      }
    }
  }

  lemma StepsSnoc(nodes: seq<Element>, i: nat)
    requires i < |nodes|
    ensures Steps(nodes[..i + 1]) == Step(Steps(nodes[..i]), nodes[i])
  {
    assert nodes[..i + 1][..i] == nodes[..i];
  }

  /** `parse_osis(root)` */
  method ParseOsis(root: Element) returns (out: map<string, string>)
    ensures out == ParseOsisSpec(root)
  {
    var reader := new MilestoneReader();
    var nodes := Preorder(root);
    for i := 0 to |nodes|
      invariant reader.Current() == Steps(nodes[..i])
    {
      StepsSnoc(nodes, i);
      reader.Visit(nodes[i]);
    }
    assert nodes[..|nodes|] == nodes;
    reader.FlushActive();
    out := reader.out;
  }

  // ---------------------------------------------------------------------------------
  // What one step does

  /** A flush always closes the open verse, keeps every verse stored before, and stores
      at most the open verse's reference, with its non-empty cleaned text. */
  lemma FlushProperties(st: State)
    ensures Flush(st).activeId == "" && Flush(st).buf == [] && Flush(st).activeRef == None
    ensures st.out.Keys <= Flush(st).out.Keys
    ensures forall k :: k in Flush(st).out ==>
      (k in st.out && Flush(st).out[k] == st.out[k]) || (st.activeRef == Some(k) && Flush(st).out[k] == Collected(st.buf) != "")
    ensures st.buf == [] || st.activeRef.None? ==> Flush(st).out == st.out
  {
  }

  /** A start milestone flushes the open verse, if any, and then opens its own; its text
      starts empty, so text following the milestone tag itself (its tail) is not kept. */
  lemma StartMilestone(st: State, e: Element)
    requires IsVerse(e) && Attr(e, "sID") != ""
    ensures Step(st, e) == State(Attr(e, "sID"), [], OsisIdToRef(Attr(e, "sID")), Flush(st).out)
  {
  }

  /** An end milestone closes the open verse only when it names the open id; otherwise it
      changes nothing. */
  lemma EndMilestone(st: State, e: Element)
    requires IsVerse(e) && Attr(e, "sID") == "" && Attr(e, "eID") != ""
    ensures Attr(e, "eID") == st.activeId ==> Step(st, e) == Flush(st)
    ensures Attr(e, "eID") != st.activeId ==> Step(st, e) == st
  {
  }

  /** Inside an open milestone verse, an element other than a verse adds its text and its
      tail, except a note, which adds nothing (its descendants are visited on their own). */
  lemma Capture(st: State, e: Element)
    requires !IsVerse(e) && st.activeId != ""
    ensures LocalName(e.tag) == "note" ==> Step(st, e) == st
    ensures LocalName(e.tag) != "note" ==> Step(st, e) == st.(buf := st.buf + NonEmpty(e.text) + NonEmpty(e.tail))
    ensures Concat(Step(st, e).buf) == Concat(st.buf) + (if LocalName(e.tag) == "note" then "" else e.text + e.tail)
  {
    if LocalName(e.tag) != "note" {
      ConcatThree(st.buf, NonEmpty(e.text), e.tail);
      ConcatNonEmpty(e.text);
    }
  }

  /** Outside any milestone, an element other than a verse changes nothing. */
  lemma Outside(st: State, e: Element)
    requires !IsVerse(e) && st.activeId == ""
    ensures Step(st, e) == st
  {
  }

  /** A container verse stores its cleaned text under its reference when the id resolves
      and the text is not empty, replacing an earlier one, and otherwise changes nothing;
      it leaves an open milestone verse as it is. */
  lemma Container(st: State, e: Element)
    requires IsContainer(e)
    ensures Step(st, e).activeId == st.activeId && Step(st, e).buf == st.buf && Step(st, e).activeRef == st.activeRef
    ensures var ref := OsisIdToRef(Attr(e, "osisID"));
      Step(st, e).out == if ref.Some? && NormalizeText(TextOf(e)) != "" then st.out[ref.value := NormalizeText(TextOf(e))] else st.out
  {
    var ref := OsisIdToRef(Attr(e, "osisID"));
    if ref.Some? {
      OsisIdToRefNonEmpty(Attr(e, "osisID"));
    }
  }

  lemma OsisIdToRefNonEmpty(osisId: string)
    requires OsisIdToRef(osisId).Some?
    ensures OsisIdToRef(osisId).value != ""
  {
  }

  // ---------------------------------------------------------------------------------
  // What the whole run produces

  /** Text as `normalize_text` leaves it, and not empty. */
  predicate Cleaned(t: string) {
    t != "" && Nbsp !in t && NoSpaceBefore(t, Punct + CloseQuotes) && NoBracketPair(t) && Trimmed(t)
  }

  lemma NormalizedCleaned(s: string)
    requires NormalizeText(s) != ""
    ensures Cleaned(NormalizeText(s))
  {
    NormalizeTextNoNbsp(s);
    NormalizeTextSpacing(s);
    NormalizeTextNoBrackets(s);
  }

  /** Every stored key is a reference `osis_id_to_ref` can make, and every stored text is
      clean; the open verse's reference, if any, is one as well. */
  predicate Good(st: State) {
    && (st.activeRef.Some? ==> IsRef(st.activeRef.value))
    && forall k :: k in st.out ==> IsRef(k) && Cleaned(st.out[k])
  }

  lemma FlushGood(st: State)
    requires Good(st)
    ensures Good(Flush(st))
  {
    if st.activeRef.Some? && st.buf != [] && Collected(st.buf) != "" {
      NormalizedCleaned(Concat(st.buf));
    }
  }

  lemma StepGood(st: State, e: Element)
    requires Good(st)
    ensures Good(Step(st, e))
  {
    if IsContainer(e) {
      ContainerGood(st, e);
    } else if IsVerse(e) && Attr(e, "sID") != "" {
      StartGood(st, Attr(e, "sID"));
    } else if IsVerse(e) && Attr(e, "eID") != "" {
      FlushGood(st);
    }
  }

  lemma ContainerGood(st: State, e: Element)
    requires Good(st)
    ensures Good(ContainerStep(st, e))
  {
    var ref := OsisIdToRef(Attr(e, "osisID"));
    var t := NormalizeText(TextOf(e));
    if ref.Some? && ref.value != "" && t != "" {
      OsisRefKey(Attr(e, "osisID"));
      NormalizedCleaned(TextOf(e));
      GoodPut(st, ref.value, t);
    }
  }

  /** Storing a clean text under a reference keeps the state good. */
  lemma GoodPut(st: State, k: string, t: string)
    requires Good(st) && IsRef(k) && Cleaned(t)
    ensures Good(st.(out := st.out[k := t]))
  {
  }

  lemma StartGood(st: State, id: string)
    requires Good(st)
    ensures Good(Flush(st).(activeId := id, activeRef := OsisIdToRef(id)))
  {
    FlushGood(st);
    if OsisIdToRef(id).Some? {
      OsisRefKey(id);
    }
  }


  lemma {:induction false} StepsGood(nodes: seq<Element>)
    ensures Good(Steps(nodes))
    decreases |nodes|
  {
    if nodes != [] {
      StepsGood(nodes[..|nodes| - 1]);
      StepGood(Steps(nodes[..|nodes| - 1]), nodes[|nodes| - 1]);
    }
  }

  /** Every reference `parse_osis` returns is one `osis_id_to_ref` can make, so `sort_key`
      reads it, and every verse text is non-empty and clean. */
  lemma ParseOsisOutput(root: Element)
    ensures forall k :: k in ParseOsisSpec(root) ==> IsRef(k) && Cleaned(ParseOsisSpec(root)[k])
  {
    StepsGood(Preorder(root));
    FlushGood(Steps(Preorder(root)));
  }

  // ---------------------------------------------------------------------------------
  // main

  /** A line of the output file. */
  datatype KjvRecord = KjvRecord(ref: string, kjv: string)

  /** The references of `mapping` in some order, each once. */
  method KeysOf(mapping: map<string, string>) returns (keys: seq<string>)
    ensures multiset(keys) == multiset(mapping.Keys)
  {
    keys := [];
    var rest := mapping.Keys;
    while rest != {}
      invariant rest <= mapping.Keys
      invariant multiset(keys) + multiset(rest) == multiset(mapping.Keys)
      decreases |rest|
    {
      var k :| k in rest;
      keys := keys + [k];
      rest := rest - {k};
    }
  }

  /** Distinct references `osis_id_to_ref` makes have distinct keys. */
  lemma DistinctKeys(refs: seq<string>)
    requires forall j :: 0 <= j < |refs| ==> IsRef(refs[j])
    requires forall i, j :: 0 <= i < j < |refs| ==> refs[i] != refs[j]
    ensures Keyed(refs, SortKey)
    ensures forall i, j :: 0 <= i < j < |refs| ==> SortKey(refs[i]).value != SortKey(refs[j]).value
  {
  }

  lemma TwoOccurrences(refs: seq<string>, i: nat, j: nat)
    requires i < j < |refs|
    ensures refs[i] == refs[j] ==> multiset(refs)[refs[i]] >= 2
  {
    if refs[i] == refs[j] {
      var x := refs[i];
      assert refs == refs[..i] + [x] + refs[i + 1..j] + [x] + refs[j + 1..];
    }
  }

  /** The elements of a sequence with the multiset of a set are all different. */
  lemma SetMultisetDistinct(refs: seq<string>, keys: set<string>)
    requires multiset(refs) == multiset(keys)
    ensures forall i, j :: 0 <= i < j < |refs| ==> refs[i] != refs[j]
    ensures forall j :: 0 <= j < |refs| ==> refs[j] in keys
  {
    forall i, j | 0 <= i < j < |refs|
      ensures refs[i] != refs[j]
    {
      TwoOccurrences(refs, i, j);
      assert multiset(keys)[refs[i]] <= 1;
    }
    forall j | 0 <= j < |refs|
      ensures refs[j] in keys
    {
      assert refs[j] in multiset(refs);
    }
  }

  /** `sorted(mapping.keys(), key=sort_key)`, for keys `sort_key` can read. */
  method WriteOrder(mapping: map<string, string>) returns (refs: seq<string>)
    requires forall k :: k in mapping ==> IsRef(k)
    ensures multiset(refs) == multiset(mapping.Keys)
    ensures Keyed(refs, SortKey) && SortedByKey(refs, SortKey)
  {
    var keys := KeysOf(mapping);
    SetMultisetDistinct(keys, mapping.Keys);
    DistinctKeys(keys);
    refs := SortByKey(keys, SortKey);
    SortByKeySorted(keys, SortKey);
  }

  /** The records written, one per reference, in the order of `refs`. */
  method RecordsOf(mapping: map<string, string>, refs: seq<string>) returns (records: seq<KjvRecord>)
    requires forall j :: 0 <= j < |refs| ==> refs[j] in mapping
    ensures |records| == |refs|
    ensures forall j :: 0 <= j < |refs| ==> records[j] == KjvRecord(refs[j], mapping[refs[j]])
  {
    records := [];
    for i := 0 to |refs|
      invariant |records| == i
      invariant forall j :: 0 <= j < i ==> records[j] == KjvRecord(refs[j], mapping[refs[j]])
    {
      records := records + [KjvRecord(refs[i], mapping[refs[i]])];
    }
  }

  /** Why `main` stops: the document yielded no verse. */
  const NoVerses := "ERROR: produced 0 verses; OSIS parsing failed or mappings missing."

  function Refs(records: seq<KjvRecord>): (refs: seq<string>)
    ensures |refs| == |records| && forall j :: 0 <= j < |records| ==> refs[j] == records[j].ref
  {
    seq(|records|, j requires 0 <= j < |records| => records[j].ref)
  }

  /** `main`: parse the document; stop when it yields no verse; otherwise write one record
      per reference, in `sort_key` order. */
  method OsisMain(root: Element) returns (r: Result<seq<KjvRecord>, string>)
    ensures r.Failure? <==> ParseOsisSpec(root) == map[]
    ensures r.Failure? ==> r.error == NoVerses
    ensures r.Success? ==>
      var mapping := ParseOsisSpec(root);
      && multiset(Refs(r.value)) == multiset(mapping.Keys)
      && (forall j :: 0 <= j < |r.value| ==> r.value[j].ref in mapping && r.value[j].kjv == mapping[r.value[j].ref])
      && Keyed(Refs(r.value), SortKey) && SortedByKey(Refs(r.value), SortKey)
  {
    var mapping := ParseOsis(root);
    if mapping == map[] {
      return Failure(NoVerses);
    }
    ParseOsisOutput(root);
    var refs := WriteOrder(mapping);
    SetMultisetDistinct(refs, mapping.Keys);
    var records := RecordsOf(mapping, refs);
    assert Refs(records) == refs;
    return Success(records);
  }

  /** The order `main` writes the references in is the only one: any two arrangements of
      the references `parse_osis` returns, each in `sort_key` order, are the same. */
  lemma WriteOrderUnique(root: Element, a: seq<string>, b: seq<string>)
    requires multiset(a) == multiset(ParseOsisSpec(root).Keys) && multiset(b) == multiset(ParseOsisSpec(root).Keys)
    requires Keyed(a, SortKey) && Keyed(b, SortKey) && SortedByKey(a, SortKey) && SortedByKey(b, SortKey)
    ensures a == b
  {
    var mapping := ParseOsisSpec(root);
    ParseOsisOutput(root);
    SetMultisetDistinct(a, mapping.Keys);
    DistinctKeys(a);
    SortedUnique(a, b, SortKey);
  }
}
