/** createDescriptorFromOps (libshims/camera/VendorTagDescriptor.cpp:58-137). */
module VendorTagOps {
  import opened Wrappers
  import opened KeyedVectors
  import opened VendorTags
  import opened VendorTagParcels

  /** The answers of a camera module's vendor_tag_ops_t; a name missing from a map is a null pointer. */
  datatype Ops = Ops(count: int, tags: seq<Uint32>, names: map<Uint32, string>, sections: map<Uint32, string>,
                     kinds: map<Uint32, int>)

  /** The tags fill the array that was sized by the count, an int. */
  ghost predicate Answers(ops: Ops) {
    ops.count <= INT32_MAX && (ops.count >= 0 ==> |ops.tags| == ops.count)
  }

  /** The tests of lines 86-111. */
  predicate Acceptable(ops: Ops, tag: Uint32) {
    && tag >= VENDOR_TAG_BOUNDARY && tag in ops.names && tag in ops.sections
    && tag in ops.kinds && 0 <= ops.kinds[tag] < NUM_TYPES
  }

  predicate AllAcceptable(ops: Ops) {
    forall i :: 0 <= i < |ops.tags| ==> Acceptable(ops, ops.tags[i])
  }

  function SectionNames(ops: Ops): (ss: seq<string>)
    requires AllAcceptable(ops)
    ensures |ss| == |ops.tags|
  {
    seq(|ops.tags|, i requires 0 <= i < |ops.tags| => ops.sections[ops.tags[i]])
  }

  lemma SectionIsNamed(ops: Ops, i: nat)
    requires AllAcceptable(ops) && i < |ops.tags|
    ensures var sections := AddAll(StringEntries(SectionNames(ops)), StrLess);
            0 <= IndexOfKey(sections, ops.sections[ops.tags[i]]) < |sections| <= |ops.tags|
  {
    AddAllHasKeys(StringEntries(SectionNames(ops)), StrLess, ops.sections[ops.tags[i]]);
    assert StringEntries(SectionNames(ops))[i].key == ops.sections[ops.tags[i]];
  }

  function OpsRecord(ops: Ops, sections: Sections, tag: Uint32): Record
    requires Acceptable(ops, tag) && 0 <= IndexOfKey(sections, ops.sections[tag]) < |sections| <= INT32_MAX
  {
    Record(tag, ops.kinds[tag], ops.names[tag], IndexOfKey(sections, ops.sections[tag]))
  }

  function OpsRecords(ops: Ops): (rs: seq<Record>)
    requires AllAcceptable(ops) && |ops.tags| <= INT32_MAX
    ensures |rs| == |ops.tags|
  {
    var sections := AddAll(StringEntries(SectionNames(ops)), StrLess);
    seq(|ops.tags|, i requires 0 <= i < |ops.tags| => SectionIsNamed(ops, i); OpsRecord(ops, sections, ops.tags[i]))
  }

  function FromOps(ops: Ops): Result<Descriptor>
    requires Answers(ops)
  {
    if ops.count < 0 || !AllAcceptable(ops) then Bad(BAD_VALUE)
    else
      var rs := OpsRecords(ops);
      WithReverse(Assembled(ops.count, rs, SectionNames(ops)), Tags(rs))
  }

  lemma OpsIndexIsInBounds(ops: Ops, tag: int)
    requires Answers(ops) && ops.count >= 0 && AllAcceptable(ops)
    requires var d := Assembled(ops.count, OpsRecords(ops), SectionNames(ops)); IndexOfKey(d.sectionOf, tag) >= 0
    ensures var d := Assembled(ops.count, OpsRecords(ops), SectionNames(ops));
            0 <= d.sectionOf[IndexOfKey(d.sectionOf, tag)].value < |d.sections|
  {
    hide AddAll;
    var rs := OpsRecords(ops);
    var d := Assembled(ops.count, rs, SectionNames(ops));
    AddAllKeeps(SectionEntries(rs), IntLess);
    var s := IndexOfKey(d.sectionOf, tag);
    assert d.sectionOf[s] in SectionEntries(rs);
    var j :| 0 <= j < |rs| && SectionEntries(rs)[j] == d.sectionOf[s];
    SectionIsNamed(ops, j);
  }

  lemma OpsAreInBounds(ops: Ops)
    requires Answers(ops) && ops.count >= 0 && AllAcceptable(ops)
    ensures var rs := OpsRecords(ops);
            InBounds(Assembled(ops.count, rs, SectionNames(ops)), Tags(rs))
  {
    hide OpsRecords, Assembled, SectionNames, IndexOfKey;
    var rs := OpsRecords(ops);
    var d := Assembled(ops.count, rs, SectionNames(ops));
    AssembledSorted(ops.count, rs, SectionNames(ops));
    forall k | 0 <= k < |rs|
      ensures var s := IndexOfKey(d.sectionOf, Tags(rs)[k]);
              s >= 0 && IndexOfKey(d.names, Tags(rs)[k]) >= 0 && 0 <= d.sectionOf[s].value < |d.sections|
    {
      AssembledHasTags(ops.count, rs, SectionNames(ops), Tags(rs)[k]);
      SameKeysFind(d.names, d.sectionOf, Tags(rs)[k]);
      OpsIndexIsInBounds(ops, Tags(rs)[k]);
    }
  }

  lemma OpsAreReversed(ops: Ops)
    requires Answers(ops) && ops.count >= 0 && AllAcceptable(ops)
    ensures var rs := OpsRecords(ops);
            WithReverse(Assembled(ops.count, rs, SectionNames(ops)), Tags(rs)).Good? && forall r :: r in rs ==> Proper(r)
  {
    hide InBounds, TriplesFor, BuildReverse, Assembled, AddAll;
    var rs := OpsRecords(ops);
    OpsAreInBounds(ops);
    forall r | r in rs
      ensures Proper(r)
    {
      var i :| 0 <= i < |rs| && rs[i] == r;
      assert Acceptable(ops, ops.tags[i]);
    }
  }

  /** A descriptor is made exactly when every answer is acceptable, and it is well formed; BAD_VALUE otherwise. */
  lemma FromOpsIsIndexed(ops: Ops)
    requires Answers(ops)
    ensures FromOps(ops).Good? <==> ops.count >= 0 && AllAcceptable(ops)
    ensures FromOps(ops).Bad? ==> FromOps(ops) == Bad(BAD_VALUE)
    ensures FromOps(ops).Good? ==> WellFormed(FromOps(ops).value) && Indexed(FromOps(ops).value)
  {
    hide WithReverse, Assembled, Indexed, WellFormed, SectionNames, OpsRecords;
    if ops.count >= 0 && AllAcceptable(ops) {
      var rs := OpsRecords(ops);
      OpsAreReversed(ops);
      AssembledIsIndexed(rs, SectionNames(ops));
    }
  }

  /** What the operations have to answer: no negative count, and for every tag a vendor tag's number, both names and
      one of the six types. */
  lemma OpsAreTakenExactlyWhen(ops: Ops)
    requires Answers(ops)
    ensures FromOps(ops).Good? <==>
            && ops.count >= 0
            && forall tag :: tag in ops.tags ==>
                 && tag >= 0x8000_0000 && tag in ops.names && tag in ops.sections
                 && tag in ops.kinds && 0 <= ops.kinds[tag] <= 5
  {
    hide FromOps;
    FromOpsIsIndexed(ops);
    if AllAcceptable(ops) {
      forall tag | tag in ops.tags
        ensures Acceptable(ops, tag)
      {
        var i :| 0 <= i < |ops.tags| && ops.tags[i] == tag;
      }
    } else {
      var i :| 0 <= i < |ops.tags| && !Acceptable(ops, ops.tags[i]);
      assert ops.tags[i] in ops.tags;
    }
  }

  lemma EntryOf(ops: Ops, i: nat)
    requires Answers(ops) && ops.count >= 0 && AllAcceptable(ops)
    requires var d := Assembled(ops.count, OpsRecords(ops), SectionNames(ops)); i < |d.names| == |d.sectionOf| == |d.types|
    ensures var d := Assembled(ops.count, OpsRecords(ops), SectionNames(ops));
            var tag := d.names[i].key;
            && 0 <= tag < TWO_32 && tag in ops.tags && Acceptable(ops, tag)
            && d.names[i].value == ops.names[tag]
  {
    var rs := OpsRecords(ops);
    var d := Assembled(ops.count, rs, SectionNames(ops));
    AddAllKeeps(NameEntries(rs), IntLess);
    assert d.names[i] in NameEntries(rs);
    var j :| 0 <= j < |rs| && NameEntries(rs)[j] == d.names[i];
    assert ops.tags[j] == d.names[i].key;
    assert Acceptable(ops, ops.tags[j]);
  }

  lemma IndexEntryOf(ops: Ops, i: nat)
    requires Answers(ops) && ops.count >= 0 && AllAcceptable(ops)
    requires var d := Assembled(ops.count, OpsRecords(ops), SectionNames(ops)); i < |d.names| == |d.sectionOf| == |d.types|
    ensures var d := Assembled(ops.count, OpsRecords(ops), SectionNames(ops));
            var tag := d.sectionOf[i].key;
            && 0 <= tag < TWO_32 && Acceptable(ops, tag)
            && d.sectionOf[i].value == IndexOfKey(d.sections, ops.sections[tag])
  {
    var rs := OpsRecords(ops);
    var d := Assembled(ops.count, rs, SectionNames(ops));
    AddAllKeeps(SectionEntries(rs), IntLess);
    assert d.sectionOf[i] in SectionEntries(rs);
    var j :| 0 <= j < |rs| && SectionEntries(rs)[j] == d.sectionOf[i];
    assert Acceptable(ops, ops.tags[j]);
    SectionIsNamed(ops, j);
    assert rs[j] == OpsRecord(ops, d.sections, ops.tags[j]);
  }

  lemma TypeEntryOf(ops: Ops, i: nat)
    requires Answers(ops) && ops.count >= 0 && AllAcceptable(ops)
    requires var d := Assembled(ops.count, OpsRecords(ops), SectionNames(ops)); i < |d.names| == |d.sectionOf| == |d.types|
    ensures var d := Assembled(ops.count, OpsRecords(ops), SectionNames(ops));
            var tag := d.types[i].key;
            && 0 <= tag < TWO_32 && Acceptable(ops, tag) && d.types[i].value == ops.kinds[tag]
  {
    var rs := OpsRecords(ops);
    var d := Assembled(ops.count, rs, SectionNames(ops));
    AddAllKeeps(TypeEntries(rs), IntLess);
    assert d.types[i] in TypeEntries(rs);
    var j :| 0 <= j < |rs| && TypeEntries(rs)[j] == d.types[i];
    assert Acceptable(ops, ops.tags[j]);
  }

  /** The descriptor answers for exactly the announced tags, and with the module's own answers. */
  lemma FromOpsHolds(ops: Ops, tag: Uint32)
    requires Answers(ops) && FromOps(ops).Good?
    ensures var d := FromOps(ops).value;
            && WellFormed(d) && d.tagCount == ops.count
            && (tag in ops.tags <==> GetTagName(d, tag).Some?)
            && (tag in ops.tags ==>
                  && Acceptable(ops, tag)
                  && GetTagName(d, tag) == Some(ops.names[tag]) && GetSectionName(d, tag) == Some(ops.sections[tag])
                  && ValueFor(d.types, tag) == Some(ops.kinds[tag]))
  {
    hide Indexed, StringEntries, NameEntries, SectionEntries, TypeEntries, BuildReverse, TriplesFor, InBounds;
    FromOpsIsIndexed(ops);
    var d := FromOps(ops).value;
    var rs := OpsRecords(ops);
    assert tag in ops.tags <==> tag in Tags(rs) by {
      assert forall i :: 0 <= i < |rs| ==> Tags(rs)[i] == ops.tags[i];
    }
    AssembledHasTags(ops.count, rs, SectionNames(ops), tag);
    SameKeysFind(d.names, d.sectionOf, tag);
    SameKeysFind(d.names, d.types, tag);
    var i := IndexOfKey(d.names, tag);
    if i >= 0 {
      EntryOf(ops, i);
      IndexEntryOf(ops, i);
      TypeEntryOf(ops, i);
    }
  }

  function MapEntries<V>(tags: seq<Uint32>, m: map<Uint32, V>): seq<Entry<int, V>>
    requires forall i :: 0 <= i < |tags| ==> tags[i] in m
  {
    seq(|tags|, i requires 0 <= i < |tags| => Entry(tags[i] as int, m[tags[i]]))
  }

  lemma OpsRecordEntries(ops: Ops)
    requires Answers(ops) && ops.count >= 0 && AllAcceptable(ops)
    ensures (forall i :: 0 <= i < |ops.tags| ==> ops.tags[i] in ops.names && ops.tags[i] in ops.kinds)
    ensures NameEntries(OpsRecords(ops)) == MapEntries(ops.tags, ops.names)
    ensures TypeEntries(OpsRecords(ops)) == MapEntries(ops.tags, ops.kinds)
    ensures Tags(OpsRecords(ops)) == ops.tags
  {
    assert forall i :: 0 <= i < |ops.tags| ==> Acceptable(ops, ops.tags[i]);
  }

  function OpsTriples(ops: Ops): (ts: seq<Triple>)
    requires AllAcceptable(ops)
    ensures |ts| == |ops.tags|
  {
    seq(|ops.tags|, i requires 0 <= i < |ops.tags| => Triple(ops.sections[ops.tags[i]], ops.names[ops.tags[i]], ops.tags[i] as int))
  }

  lemma OpsTriplesAreIndexed(ops: Ops)
    requires Answers(ops) && ops.count >= 0 && AllAcceptable(ops)
    ensures var rs := OpsRecords(ops);
            FromOps(ops) == Good(Assembled(ops.count, rs, SectionNames(ops)).(reverse := BuildReverse(OpsTriples(ops))))
  {
    hide BuildReverse, Assembled, OpsRecords, AddAll, Indexed;
    var rs := OpsRecords(ops);
    var d := Assembled(ops.count, rs, SectionNames(ops));
    OpsAreInBounds(ops);
    OpsRecordEntries(ops);
    var ts := TriplesFor(d, Tags(rs));
    forall i | 0 <= i < |ts|
      ensures ts[i] == OpsTriples(ops)[i]
    {
      assert Acceptable(ops, ops.tags[i]);
      FromOpsHolds(ops, ops.tags[i]);
    }
    assert ts == OpsTriples(ops);
  }

  ghost predicate DistinctTags(ops: Ops) {
    forall i, j :: 0 <= i < j < |ops.tags| ==> ops.tags[i] != ops.tags[j]
  }

  ghost predicate FilledNames(ops: Ops)
    requires AllAcceptable(ops)
  {
    forall i :: 0 <= i < |ops.tags| ==> ops.names[ops.tags[i]] != "" && ops.sections[ops.tags[i]] != ""
  }

  lemma DistinctTagsAreKeys(ops: Ops)
    requires Answers(ops) && ops.count >= 0 && AllAcceptable(ops)
    ensures DistinctKeys(NameEntries(OpsRecords(ops))) <==> DistinctTags(ops)
    ensures |NameEntries(OpsRecords(ops))| == ops.count
  {
    var es := NameEntries(OpsRecords(ops));
    assert forall i :: 0 <= i < |es| ==> es[i].key == ops.tags[i];
  }

  lemma DistinctTagsAreAllHeld(ops: Ops)
    requires Answers(ops) && FromOps(ops).Good?
    ensures |FromOps(ops).value.names| == FromOps(ops).value.tagCount <==> DistinctTags(ops)
  {
    hide AddAll, NameEntries, SectionEntries, TypeEntries, StringEntries, OpsRecords, InBounds, BuildReverse, TriplesFor, DistinctKeys, DistinctTags;
    AddAllLength(NameEntries(OpsRecords(ops)), IntLess);
    DistinctTagsAreKeys(ops);
  }

  lemma FilledNamesFill(ops: Ops)
    requires Answers(ops) && FromOps(ops).Good? && FilledNames(ops)
    ensures Filled(FromOps(ops).value)
  {
    hide AddAll, SectionEntries, TypeEntries, InBounds, BuildReverse, TriplesFor;
    StrLessIsOrder();
    var d, rs := FromOps(ops).value, OpsRecords(ops);
    var ss := StringEntries(SectionNames(ops));
    AddAllKeeps(NameEntries(rs), IntLess);
    AddAllKeeps(ss, StrLess);
    forall e | e in d.names
      ensures e.value != ""
    {
      var j :| 0 <= j < |rs| && NameEntries(rs)[j] == e;
    }
    forall e | e in d.sections
      ensures e.key != ""
    {
      var j :| 0 <= j < |ss| && ss[j] == e;
    }
  }

  lemma FilledNamesAreNeeded(ops: Ops, tag: Uint32)
    requires Answers(ops) && FromOps(ops).Good? && tag in ops.tags && Acceptable(ops, tag)
    requires Filled(FromOps(ops).value)
    ensures ops.names[tag] != "" && ops.sections[tag] != ""
  {
    hide FromOps;
    FromOpsHolds(ops, tag);
    var d := FromOps(ops).value;
    assert d.names[IndexOfKey(d.names, tag)] in d.names;
    assert d.sections[d.sectionOf[IndexOfKey(d.sectionOf, tag)].value] in d.sections;
  }

  lemma FilledNamesAreFilled(ops: Ops)
    requires Answers(ops) && FromOps(ops).Good?
    ensures Filled(FromOps(ops).value) <==> FilledNames(ops)
  {
    hide Filled, Assembled, OpsRecords, WithReverse;
    if FilledNames(ops) {
      FilledNamesFill(ops);
    } else if Filled(FromOps(ops).value) {
      forall i | 0 <= i < |ops.tags|
        ensures ops.names[ops.tags[i]] != "" && ops.sections[ops.tags[i]] != ""
      {
        FilledNamesAreNeeded(ops, ops.tags[i]);
      }
    }
  }

  /** No two announced tags share both names. */
  ghost predicate UniqueNames(ops: Ops)
    requires AllAcceptable(ops)
  {
    forall a, b :: a in ops.tags && b in ops.tags && ops.names[a] == ops.names[b] && ops.sections[a] == ops.sections[b] ==> a == b
  }

  lemma TripleIsAnswered(ops: Ops, t: Triple)
    requires Answers(ops) && FromOps(ops).Good? && AllAcceptable(ops) && WellFormed(FromOps(ops).value)
    requires t in Triples(FromOps(ops).value)
    ensures 0 <= t.tag < TWO_32 && t.tag in ops.tags && Acceptable(ops, t.tag)
    ensures t.name == ops.names[t.tag] && t.section == ops.sections[t.tag]
  {
    hide FromOps, GetTagName, GetSectionName;
    var d := FromOps(ops).value;
    assert 0 <= t.tag < TWO_32;
    hide Triples, WellFormed;
    assert t == Triple(t.section, t.name, t.tag);
    TriplesAreNames(d, t.tag, t.section, t.name);
    FromOpsHolds(ops, t.tag);
  }

  lemma UniqueNamesAreUniquePairs(ops: Ops)
    requires Answers(ops) && FromOps(ops).Good? && UniqueNames(ops)
    ensures WellFormed(FromOps(ops).value) && UniquePairs(FromOps(ops).value)
  {
    hide FromOps, GetTagName, GetSectionName, Triples, WellFormed, Indexed;
    FromOpsIsIndexed(ops);
    var d := FromOps(ops).value;
    forall a, b | a in Triples(d) && b in Triples(d) && a.section == b.section && a.name == b.name
      ensures a == b
    {
      TripleIsAnswered(ops, a);
      TripleIsAnswered(ops, b);
    }
  }

  // ----- Which tag answers for a shared pair -----

  predicate SamePair(ops: Ops, a: Uint32, b: Uint32)
    requires Acceptable(ops, a) && Acceptable(ops, b)
  {
    ops.names[a] == ops.names[b] && ops.sections[a] == ops.sections[b]
  }

  /** No later announcement has the pair of announcement i. */
  ghost predicate LastOfPair(ops: Ops, i: nat)
    requires AllAcceptable(ops) && i < |ops.tags|
  {
    forall j :: i < j < |ops.tags| ==> !SamePair(ops, ops.tags[i], ops.tags[j])
  }

  /** For every pair of names the last announced tag is the greatest. */
  ghost predicate LastIsGreatest(ops: Ops)
    requires AllAcceptable(ops)
  {
    forall i, k | 0 <= i < |ops.tags| && 0 <= k < |ops.tags| ::
      SamePair(ops, ops.tags[i], ops.tags[k]) && LastOfPair(ops, i) ==> ops.tags[k] <= ops.tags[i]
  }

  lemma LastWithPair(ops: Ops, k: nat, from: nat) returns (i: nat)
    requires AllAcceptable(ops) && k <= from < |ops.tags| && SamePair(ops, ops.tags[k], ops.tags[from])
    ensures from <= i < |ops.tags| && SamePair(ops, ops.tags[k], ops.tags[i]) && LastOfPair(ops, i)
    decreases |ops.tags| - from
  {
    if j :| from < j < |ops.tags| && SamePair(ops, ops.tags[from], ops.tags[j]) {
      i := LastWithPair(ops, k, j);
    } else {
      i := from;
    }
  }

  /** lookupTag answers with the last announced tag of the pair. */
  lemma LookupAnswersLast(ops: Ops, i: nat)
    requires Answers(ops) && FromOps(ops).Good? && i < |ops.tags| && LastOfPair(ops, i)
    ensures var tag := ops.tags[i];
            Acceptable(ops, tag) && Find(FromOps(ops).value.reverse, ops.sections[tag], ops.names[tag]) == Some(tag)
  {
    hide WithReverse, Assembled, OpsRecords, Find, BuildReverse;
    assert Acceptable(ops, ops.tags[i]);
    OpsTriplesAreIndexed(ops);
    var ts := OpsTriples(ops);
    forall j | i < j < |ts|
      ensures ts[j].section != ts[i].section || ts[j].name != ts[i].name
    {
      assert !SamePair(ops, ops.tags[i], ops.tags[j]);
    }
    BuiltReverseAnswersLast(ts, i);
  }

  lemma LastAnswerIsGreatest(ops: Ops, t: Triple)
    requires Answers(ops) && FromOps(ops).Good? && WellFormed(FromOps(ops).value)
    requires AllAcceptable(ops) && LastIsGreatest(ops) && t in Triples(FromOps(ops).value)
    ensures var found := Find(FromOps(ops).value.reverse, t.section, t.name);
            found.Some? && t.tag <= found.value
  {
    hide FromOps, Find, Triples, WellFormed;
    TripleIsAnswered(ops, t);
    var k :| 0 <= k < |ops.tags| && ops.tags[k] == t.tag;
    var i := LastWithPair(ops, k, k);
    LookupAnswersLast(ops, i);
  }

  lemma GreatestAnswerIsLast(ops: Ops, i: nat, k: nat)
    requires Answers(ops) && FromOps(ops).Good? && WellFormed(FromOps(ops).value) && AnswersGreatest(FromOps(ops).value)
    requires AllAcceptable(ops) && i < |ops.tags| && k < |ops.tags| && LastOfPair(ops, i) && SamePair(ops, ops.tags[i], ops.tags[k])
    ensures ops.tags[k] <= ops.tags[i]
  {
    hide FromOps, Find, Triples, WellFormed, GetTagName, GetSectionName;
    var tag := ops.tags[k];
    assert Acceptable(ops, tag);
    FromOpsHolds(ops, tag);
    TriplesAreNames(FromOps(ops).value, tag, ops.sections[tag], ops.names[tag]);
    LookupAnswersLast(ops, i);
    assert Triple(ops.sections[tag], ops.names[tag], tag) in Triples(FromOps(ops).value);
  }

  lemma AnswersGreatestExactlyWhen(ops: Ops)
    requires Answers(ops) && FromOps(ops).Good? && WellFormed(FromOps(ops).value)
    ensures AnswersGreatest(FromOps(ops).value) <==> LastIsGreatest(ops)
  {
    hide FromOps, Find, Triples, WellFormed, LastOfPair;
    FromOpsIsIndexed(ops);
    var d := FromOps(ops).value;
    if LastIsGreatest(ops) {
      forall t | t in Triples(d)
        ensures var found := Find(d.reverse, t.section, t.name);
                found.Some? && t.tag <= found.value
      {
        LastAnswerIsGreatest(ops, t);
      }
    }
    if AnswersGreatest(d) {
      forall i, k | 0 <= i < |ops.tags| && 0 <= k < |ops.tags| && SamePair(ops, ops.tags[i], ops.tags[k]) && LastOfPair(ops, i)
        ensures ops.tags[k] <= ops.tags[i]
      {
        GreatestAnswerIsLast(ops, i, k);
      }
    }
  }

  /** A module's descriptor comes through a parcel if and only if it announces distinct tags with names
      that are not empty, and unchanged if and only if, in addition, the last tag announced with a
      shared pair of names is the greatest. */
  lemma OpsRoundTrip(ops: Ops)
    requires Answers(ops) && FromOps(ops).Good?
    ensures WellFormed(FromOps(ops).value)
    ensures var d := FromOps(ops).value;
            && (FromParcel(WriteParcel(d)).Good? <==> DistinctTags(ops) && FilledNames(ops))
            && (FromParcel(WriteParcel(d)) == Good(d) <==> DistinctTags(ops) && FilledNames(ops) && LastIsGreatest(ops))
  {
    hide FromOps, FromParcel, WriteParcel, WellFormed, Indexed, AnswersGreatest, Filled, FilledNames, LastIsGreatest, DistinctTags;
    FromOpsIsIndexed(ops);
    var d := FromOps(ops).value;
    DistinctTagsAreAllHeld(ops);
    FilledNamesAreFilled(ops);
    FewSections(ops);
    RoundTripExactlyWhen(d);
    AnswersGreatestExactlyWhen(ops);
  }

  /** When no two tags share both names the parcel is undone, and lookupTag inverts the two getters. */
  lemma UniqueNamesAreEnough(ops: Ops)
    requires Answers(ops) && FromOps(ops).Good? && UniqueNames(ops)
    ensures WellFormed(FromOps(ops).value) && LookupInverts(FromOps(ops).value)
    ensures DistinctTags(ops) && FilledNames(ops) ==> FromParcel(WriteParcel(FromOps(ops).value)) == Good(FromOps(ops).value)
  {
    hide FromOps, FromParcel, WriteParcel, WellFormed, Indexed, UniquePairs, LookupInverts, FilledNames, DistinctTags, AllAcceptable;
    FromOpsIsIndexed(ops);
    UniqueNamesAreUniquePairs(ops);
    LookupInvertsExactlyWhen(FromOps(ops).value);
    OpsRoundTrip(ops);
  }

  lemma FewSections(ops: Ops)
    requires Answers(ops) && FromOps(ops).Good?
    ensures |FromOps(ops).value.sections| <= INT32_MAX
  {
    AssembledSorted(ops.count, OpsRecords(ops), SectionNames(ops));
  }

  // ----- Two ways to lose a descriptor -----

  const FIRST_TAG: Uint32 := 0x8000_0000
  const SECOND_TAG: Uint32 := 0x8000_0001

  /** One tag, announced twice. */
  function Repeated(): Ops {
    Ops(2, [FIRST_TAG, FIRST_TAG], map[FIRST_TAG := "hdr"], map[FIRST_TAG := "mode"], map[FIRST_TAG := 0])
  }

  lemma RepeatedTagIsUnreadable()
    ensures Answers(Repeated()) && FromOps(Repeated()).Good? && WellFormed(FromOps(Repeated()).value)
    ensures FromParcel(WriteParcel(FromOps(Repeated()).value)).Bad?
  {
    hide FromOps, FromParcel, WriteParcel, WellFormed, Indexed, LastIsGreatest;
    FromOpsIsIndexed(Repeated());
    OpsRoundTrip(Repeated());
    assert !DistinctTags(Repeated()) by {
      assert Repeated().tags[0] == Repeated().tags[1];
    }
  }

  /** Two tags that share both names, announced greatest first. */
  function Swapped(): Ops {
    Ops(2, [SECOND_TAG, FIRST_TAG], map[FIRST_TAG := "hdr", SECOND_TAG := "hdr"],
        map[FIRST_TAG := "mode", SECOND_TAG := "mode"], map[FIRST_TAG := 0, SECOND_TAG := 0])
  }

  /** The descriptor is read back, but looks up another tag. */
  lemma SwappedTagsAreConfused()
    ensures Answers(Swapped()) && FromOps(Swapped()).Good? && WellFormed(FromOps(Swapped()).value)
    ensures var d := FromOps(Swapped()).value;
            FromParcel(WriteParcel(d)).Good? && FromParcel(WriteParcel(d)) != Good(d)
  {
    hide FromOps, FromParcel, WriteParcel, WellFormed, Indexed;
    var ops := Swapped();
    FromOpsIsIndexed(ops);
    OpsRoundTrip(ops);
    assert !LastIsGreatest(ops) by {
      assert SamePair(ops, ops.tags[1], ops.tags[0]) && LastOfPair(ops, 1);
    }
  }
}
