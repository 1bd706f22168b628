/** Building vendor tag descriptors from a camera module's operations and from parcels, and writing
    them to parcels (libshims/camera/VendorTagDescriptor.cpp). */
module VendorTagParcels {
  import opened Wrappers
  import opened KeyedVectors
  import opened VendorTags

  /** FATAL is a failed LOG_ALWAYS_FATAL_IF; OUT_OF_BOUNDS an index past the end of a vector. */
  datatype Status = OK | BAD_VALUE | NOT_ENOUGH_DATA | OUT_OF_BOUNDS | FATAL | NO_MEMORY

  datatype Result<T> = Good(value: T) | Bad(status: Status)

  type Uint32 = x: int | 0 <= x < TWO_32

  /** What one write adds to a parcel. */
  datatype Cell = Int(bits: Uint32) | Str(text: string)

  type Cells = seq<Cell>

  function Signed(bits: Uint32): int {
    if bits <= INT32_MAX then bits else bits - TWO_32
  }

  function ReadInt(p: Cells): Option<Uint32> {
    if p != [] && p[0].Int? then Some(p[0].bits) else None
  }

  /** The empty string when there is nothing to read. */
  function ReadString(p: Cells): string {
    if p != [] && p[0].Str? then p[0].text else ""
  }

  function Rest(p: Cells, n: nat): Cells {
    if n <= |p| then p[n..] else []
  }

  // ----- Reading -----

  datatype Record = Record(tag: Uint32, kind: int, name: string, section: Uint32)

  /** Lines 167-195. */
  function ReadTag(p: Cells): Result<Record> {
    if ReadInt(p).None? then Bad(NOT_ENOUGH_DATA)
    else if p[0].bits < VENDOR_TAG_BOUNDARY then Bad(BAD_VALUE)
    else if ReadInt(Rest(p, 1)).None? then Bad(NOT_ENOUGH_DATA)
    else if !(0 <= Signed(ReadInt(Rest(p, 1)).value) < NUM_TYPES) then Bad(BAD_VALUE)
    else if ReadString(Rest(p, 2)) == "" then Bad(NOT_ENOUGH_DATA)
    else if ReadInt(Rest(p, 3)).None? then Bad(NOT_ENOUGH_DATA)
    else Good(Record(p[0].bits, Signed(ReadInt(Rest(p, 1)).value), ReadString(Rest(p, 2)), ReadInt(Rest(p, 3)).value))
  }

  function ReadTags(p: Cells, n: nat): Result<seq<Record>> {
    if n == 0 then Good([])
    else
      match ReadTag(p)
      case Bad(status) => Bad(status)
      case Good(r) => Cons(r, ReadTags(Rest(p, 4), n - 1))
  }

  function Cons<T>(x: T, tail: Result<seq<T>>): Result<seq<T>> {
    match tail
    case Bad(status) => Bad(status)
    case Good(xs) => Good([x] + xs)
  }

  function ReadStrings(p: Cells, n: nat): Result<seq<string>> {
    if n == 0 then Good([])
    else if ReadString(p) == "" then Bad(NOT_ENOUGH_DATA)
    else Cons(ReadString(p), ReadStrings(Rest(p, 1), n - 1))
  }

  /** Line 197, over all the records. */
  function MaxSection(rs: seq<Record>): Uint32 {
    if rs == [] then 0
    else
      var m := MaxSection(rs[..|rs| - 1]);
      if m >= rs[|rs| - 1].section then m else rs[|rs| - 1].section
  }

  /** Lines 211-230. The sum wraps at 32 bits, and no capacity can be set for no sections. */
  function ReadSections(p: Cells, max: Uint32): Result<seq<string>> {
    if ReadInt(p).None? then Bad(NOT_ENOUGH_DATA)
    else if ReadInt(p).value < (max + 1) % TWO_32 then Bad(BAD_VALUE)
    else if ReadInt(p).value == 0 then Bad(FATAL)
    else ReadStrings(Rest(p, 1), ReadInt(p).value)
  }

  function NameEntries(rs: seq<Record>): seq<Entry<int, string>> {
    seq(|rs|, i requires 0 <= i < |rs| => Entry(rs[i].tag as int, rs[i].name))
  }

  function SectionEntries(rs: seq<Record>): seq<Entry<int, int>> {
    seq(|rs|, i requires 0 <= i < |rs| => Entry(rs[i].tag as int, rs[i].section as int))
  }

  function TypeEntries(rs: seq<Record>): seq<Entry<int, int>> {
    seq(|rs|, i requires 0 <= i < |rs| => Entry(rs[i].tag as int, rs[i].kind))
  }

  function StringEntries(ss: seq<string>): (es: seq<Entry<string, ()>>)
    ensures |es| == |ss|
  {
    seq(|ss|, i requires 0 <= i < |ss| => Entry(ss[i], ()))
  }

  function Tags(rs: seq<Record>): seq<int> {
    seq(|rs|, i requires 0 <= i < |rs| => rs[i].tag as int)
  }

  /** The descriptor before its reverse index is built. */
  function Assembled(count: nat, rs: seq<Record>, ss: seq<string>): Descriptor {
    Descriptor(count, AddAll(NameEntries(rs), IntLess), AddAll(SectionEntries(rs), IntLess),
               AddAll(TypeEntries(rs), IntLess), AddAll(StringEntries(ss), StrLess), [])
  }

  /** The section of each tag is one of the sections read (line 238 looks it up unchecked). */
  predicate InBounds(d: Descriptor, tags: seq<int>) {
    forall i :: 0 <= i < |tags| ==> TagInBounds(d, tags[i])
  }

  predicate TagInBounds(d: Descriptor, tag: int) {
    var s := IndexOfKey(d.sectionOf, tag);
    s >= 0 && IndexOfKey(d.names, tag) >= 0 && 0 <= d.sectionOf[s].value < |d.sections|
  }

  function TripleFor(d: Descriptor, tag: int): Triple
    requires InBounds(d, [tag])
  {
    assert [tag][0] == tag;
    Triple(d.sections[d.sectionOf[IndexOfKey(d.sectionOf, tag)].value].key, d.names[IndexOfKey(d.names, tag)].value, tag)
  }

  function TriplesFor(d: Descriptor, tags: seq<int>): (ts: seq<Triple>)
    requires InBounds(d, tags)
    ensures |ts| == |tags|
  {
    seq(|tags|, i requires 0 <= i < |tags| => TripleFor(d, tags[i]))
  }

  /** Lines 235-246. */
  function WithReverse(d: Descriptor, tags: seq<int>): Result<Descriptor> {
    if InBounds(d, tags) then Good(d.(reverse := BuildReverse(TriplesFor(d, tags)))) else Bad(OUT_OF_BOUNDS)
  }

  /** Everything createFromParcel reads: the tags, and the sections if there are any tags. */
  function Parsed(p: Cells): Result<(seq<Record>, seq<string>)> {
    if ReadInt(p).None? then Bad(NOT_ENOUGH_DATA)
    else if Signed(ReadInt(p).value) < 0 then Bad(BAD_VALUE)
    else
      var count: nat := Signed(ReadInt(p).value);
      match ReadTags(Rest(p, 1), count)
      case Bad(status) => Bad(status)
      case Good(rs) =>
        if count == 0 then Good((rs, []))
        else
          match ReadSections(Rest(p, 1 + 4 * count), MaxSection(rs))
          case Bad(status) => Bad(status)
          case Good(ss) => Good((rs, ss))
  }

  /** createFromParcel. */
  function FromParcel(p: Cells): Result<Descriptor> {
    match Parsed(p)
    case Bad(status) => Bad(status)
    case Good((rs, ss)) => WithReverse(Assembled(|rs|, rs, ss), Tags(rs))
  }

  // ----- Writing -----

  function U32(x: int): Uint32 {
    x % TWO_32
  }

  function WriteTag(r: Record): Cells {
    [Int(r.tag), Int(U32(r.kind)), Str(r.name), Int(r.section)]
  }

  function WriteTags(rs: seq<Record>): (p: Cells)
    ensures |p| == 4 * |rs|
  {
    if rs == [] then [] else WriteTag(rs[0]) + WriteTags(rs[1..])
  }

  function WriteStrings(v: Sections): Cells {
    seq(|v|, i requires 0 <= i < |v| => Str(v[i].key))
  }

  function Records(d: Descriptor): (rs: seq<Record>)
    requires WellFormed(d)
    ensures |rs| == |d.names|
  {
    seq(|d.names|, i requires 0 <= i < |d.names| =>
      Record(d.names[i].key, d.types[i].value, d.names[i].value, d.sectionOf[i].value))
  }

  /** Nothing at all is written for no sections. */
  function WriteSections(v: Sections): Cells {
    if v == [] then [] else [Int(U32(|v|))] + WriteStrings(v)
  }

  /** writeToParcel. */
  function WriteParcel(d: Descriptor): Cells
    requires WellFormed(d)
  {
    [Int(U32(d.tagCount))] + WriteTags(Records(d)) + WriteSections(d.sections)
  }

  // ----- Every descriptor read is well formed -----

  ghost predicate Proper(r: Record) {
    r.tag >= VENDOR_TAG_BOUNDARY && 0 <= r.kind < NUM_TYPES
  }

  lemma {:induction false} ReadTagsAreProper(p: Cells, n: nat)
    ensures var read := ReadTags(p, n);
            read.Good? ==> |read.value| == n && forall r :: r in read.value ==> Proper(r)
  {
    if n > 0 && ReadTag(p).Good? {
      ReadTagsAreProper(Rest(p, 4), n - 1);
    }
  }

  lemma {:induction false} ReadStringsCount(p: Cells, n: nat)
    ensures var read := ReadStrings(p, n);
            read.Good? ==> |read.value| == n
  {
    if n > 0 {
      ReadStringsCount(Rest(p, 1), n - 1);
    }
  }

  lemma AssembledSorted(count: nat, rs: seq<Record>, ss: seq<string>)
    ensures var d := Assembled(count, rs, ss);
            && Sorted(d.names, IntLess) && SameKeys(d.names, d.sectionOf) && SameKeys(d.names, d.types)
            && Sorted(d.sections, StrLess) && d.tagCount == count && |d.names| <= |rs| && |d.sections| <= |ss|
  {
    StrLessIsOrder();
    AddAllKeeps(NameEntries(rs), IntLess);
    AddAllKeeps(StringEntries(ss), StrLess);
    AddAllHasKeys(NameEntries(rs), IntLess, 0);
    AddAllHasKeys(StringEntries(ss), StrLess, "");
    AddAllSameKeys(NameEntries(rs), SectionEntries(rs), IntLess);
    AddAllSameKeys(NameEntries(rs), TypeEntries(rs), IntLess);
  }

  /** The tags held are the tags read. */
  lemma AssembledHasTags(count: nat, rs: seq<Record>, ss: seq<string>, tag: int)
    ensures IndexOfKey(Assembled(count, rs, ss).names, tag) >= 0 <==> tag in Tags(rs)
  {
    AddAllHasKeys(NameEntries(rs), IntLess, tag);
    if tag in Tags(rs) {
      var i :| 0 <= i < |rs| && Tags(rs)[i] == tag;
      assert NameEntries(rs)[i].key == tag;
    }
    if i :| 0 <= i < |rs| && NameEntries(rs)[i].key == tag {
      assert Tags(rs)[i] == tag;
    }
  }

  lemma IndexOfSorted<V>(v: seq<Entry<int, V>>, i: nat)
    requires Sorted(v, IntLess) && i < |v|
    ensures IndexOfKey(v, v[i].key) == i
  {
    var j := IndexOfKey(v, v[i].key);
    assert j < i ==> IntLess(v[j].key, v[i].key);
  }

  lemma AssembledEntry(count: nat, rs: seq<Record>, ss: seq<string>, i: nat)
    requires forall r :: r in rs ==> Proper(r)
    requires i < |Assembled(count, rs, ss).names| && InBounds(Assembled(count, rs, ss), Tags(rs))
    ensures var d := Assembled(count, rs, ss);
            && |d.sectionOf| == |d.types| == |d.names|
            && VENDOR_TAG_BOUNDARY <= d.names[i].key < TWO_32
            && 0 <= d.sectionOf[i].value < |d.sections| && 0 <= d.types[i].value < NUM_TYPES
  {
    var d := Assembled(count, rs, ss);
    AssembledSorted(count, rs, ss);
    AddAllKeeps(NameEntries(rs), IntLess);
    AddAllKeeps(TypeEntries(rs), IntLess);
    assert d.names[i] in NameEntries(rs) && d.types[i] in TypeEntries(rs);
    var k :| 0 <= k < |rs| && d.types[i] == TypeEntries(rs)[k];
    assert rs[k] in rs;
    var j :| 0 <= j < |rs| && d.names[i] == NameEntries(rs)[j];
    assert rs[j] in rs && Tags(rs)[j] == d.sectionOf[i].key;
    IndexOfSorted(d.sectionOf, i);
  }

  lemma AssembledIsWellFormed(rs: seq<Record>, ss: seq<string>, reverse: Reverse)
    requires |rs| <= INT32_MAX && |ss| < TWO_32 && (rs == [] ==> ss == [])
    requires forall r :: r in rs ==> Proper(r)
    requires InBounds(Assembled(|rs|, rs, ss), Tags(rs))
    ensures WellFormed(Assembled(|rs|, rs, ss).(reverse := reverse))
  {
    hide Assembled, InBounds, Proper;
    var d := Assembled(|rs|, rs, ss);
    AssembledSorted(|rs|, rs, ss);
    forall i | 0 <= i < |d.names|
      ensures VENDOR_TAG_BOUNDARY <= d.names[i].key < TWO_32
      ensures 0 <= d.sectionOf[i].value < |d.sections| && 0 <= d.types[i].value < NUM_TYPES
    {
      AssembledEntry(|rs|, rs, ss, i);
    }
    assert rs != [] ==> d.names != [] by {
      if rs != [] {
        assert Tags(rs)[0] in Tags(rs);
        AssembledHasTags(|rs|, rs, ss, rs[0].tag);
      }
    }
  }

  lemma TripleForIsIn(d: Descriptor, tag: int)
    requires WellFormed(d) && InBounds(d, [tag])
    ensures TripleFor(d, tag) in Triples(d)
  {
    var t := TripleFor(d, tag);
    assert [tag][0] == tag;
    TriplesAreNames(d, tag, t.section, t.name);
  }

  lemma TripleForTags(d: Descriptor, tags: seq<int>, i: nat)
    requires WellFormed(d) && InBounds(d, tags) && i < |tags|
    ensures InBounds(d, [tags[i]]) && TriplesFor(d, tags)[i] == TripleFor(d, tags[i])
    ensures TripleFor(d, tags[i]) in Triples(d)
  {
    hide TagInBounds, TripleFor, Triples;
    assert TagInBounds(d, tags[i]);
    assert InBounds(d, [tags[i]]);
    TripleForIsIn(d, tags[i]);
  }

  lemma TripleIsCovered(d: Descriptor, tags: seq<int>, t: Triple)
    requires WellFormed(d) && InBounds(d, tags) && t.tag in tags
    ensures t in TriplesFor(d, tags) <==> t in Triples(d)
  {
    hide Triples, WellFormed, InBounds, TriplesFor;
    if t in Triples(d) {
      var i :| 0 <= i < |tags| && tags[i] == t.tag;
      TripleForTags(d, tags, i);
      SameTagSameTriple(d, t, TripleFor(d, tags[i]));
      assert TriplesFor(d, tags)[i] in TriplesFor(d, tags);
    }
    if t in TriplesFor(d, tags) {
      var i :| 0 <= i < |TriplesFor(d, tags)| && TriplesFor(d, tags)[i] == t;
      TripleForTags(d, tags, i);
    }
  }

  lemma SameTagSameTriple(d: Descriptor, a: Triple, b: Triple)
    requires WellFormed(d) && a in Triples(d) && b in Triples(d) && a.tag == b.tag
    ensures a == b
  {
    hide Triples, WellFormed, GetTagName, GetSectionName;
    assert a == Triple(a.section, a.name, a.tag) && b == Triple(b.section, b.name, b.tag);
    TriplesAreNames(d, a.tag, a.section, a.name);
    TriplesAreNames(d, b.tag, b.section, b.name);
  }

  lemma TriplesForCover(d: Descriptor, tags: seq<int>)
    requires WellFormed(d) && InBounds(d, tags)
    requires forall tag :: tag in tags <==> IndexOfKey(d.names, tag) >= 0
    ensures forall t :: t in TriplesFor(d, tags) <==> t in Triples(d)
  {
    hide Triples, WellFormed, InBounds, IndexOfKey;
    forall t
      ensures t in TriplesFor(d, tags) <==> t in Triples(d)
    {
      TriplesHaveTags(d, tags, t);
      if t.tag in tags {
        TripleIsCovered(d, tags, t);
      }
    }
  }

  lemma TriplesHaveTags(d: Descriptor, tags: seq<int>, t: Triple)
    requires WellFormed(d) && InBounds(d, tags)
    ensures t in TriplesFor(d, tags) ==> t.tag in tags
    ensures t in Triples(d) ==> IndexOfKey(d.names, t.tag) >= 0
  {
    assert t == Triple(t.section, t.name, t.tag);
    TriplesAreNames(d, t.tag, t.section, t.name);
  }

  lemma WithReverseIsIndexed(d: Descriptor, tags: seq<int>)
    requires WellFormed(d) && InBounds(d, tags)
    requires forall tag :: tag in tags <==> IndexOfKey(d.names, tag) >= 0
    ensures var r := WithReverse(d, tags);
            r.Good? && WellFormed(r.value) && Indexed(r.value)
  {
    var r := WithReverse(d, tags).value;
    assert WellFormed(r) && Triples(r) == Triples(d);
    TriplesForCover(d, tags);
    BuiltIsIndexed(r, TriplesFor(d, tags));
  }

  lemma AssembledIsIndexed(rs: seq<Record>, ss: seq<string>)
    requires |rs| <= INT32_MAX && |ss| < TWO_32 && (rs == [] ==> ss == [])
    requires forall r :: r in rs ==> Proper(r)
    ensures var r := WithReverse(Assembled(|rs|, rs, ss), Tags(rs));
            r.Good? ==> WellFormed(r.value) && Indexed(r.value)
  {
    hide Assembled, BuildReverse, Indexed, Proper, TriplesFor;
    var d := Assembled(|rs|, rs, ss);
    if InBounds(d, Tags(rs)) {
      AssembledIsWellFormed(rs, ss, d.reverse);
      forall tag
        ensures tag in Tags(rs) <==> IndexOfKey(d.names, tag) >= 0
      {
        AssembledHasTags(|rs|, rs, ss, tag);
      }
      WithReverseIsIndexed(d, Tags(rs));
    }
  }

  lemma ParsedIsProper(p: Cells)
    ensures var parsed := Parsed(p);
            parsed.Good? ==>
              var (rs, ss) := parsed.value;
              && |rs| <= INT32_MAX && |ss| < TWO_32 && (rs == [] ==> ss == [])
              && forall r :: r in rs ==> Proper(r)
  {
    hide ReadTags, ReadStrings, MaxSection, Proper;
    if Parsed(p).Good? {
      var count: nat := Signed(ReadInt(p).value);
      ReadTagsAreProper(Rest(p, 1), count);
      if count > 0 {
        var q := Rest(p, 1 + 4 * count);
        ReadStringsCount(Rest(q, 1), ReadInt(q).value);
      }
    }
  }

  /** Whatever the parcel holds, a descriptor made from it is well formed and its index is right. */
  lemma FromParcelIsIndexed(p: Cells)
    ensures FromParcel(p).Good? ==> WellFormed(FromParcel(p).value) && Indexed(FromParcel(p).value)
  {
    hide Parsed, WithReverse, Assembled, WellFormed, Indexed, Proper;
    if FromParcel(p).Good? {
      ParsedIsProper(p);
      AssembledIsIndexed(Parsed(p).value.0, Parsed(p).value.1);
    }
  }

  // ----- When a section index is out of range -----

  /** No later record is for the tag of record i, so its section is the tag's. */
  predicate LastForTag(rs: seq<Record>, i: nat)
    requires i < |rs|
  {
    forall j :: i < j < |rs| ==> rs[j].tag != rs[i].tag
  }

  lemma LastForTagIsHeld(count: nat, rs: seq<Record>, ss: seq<string>, i: nat)
    requires i < |rs| && LastForTag(rs, i)
    ensures ValueFor(Assembled(count, rs, ss).sectionOf, rs[i].tag) == Some(rs[i].section)
  {
    AddAllFindsLast(SectionEntries(rs), IntLess, i);
  }

  lemma LastRecordForTag(rs: seq<Record>, k: nat) returns (i: nat)
    requires k < |rs|
    ensures k <= i < |rs| && rs[i].tag == rs[k].tag && LastForTag(rs, i)
    decreases |rs| - k
  {
    if j :| k < j < |rs| && rs[j].tag == rs[k].tag {
      i := LastRecordForTag(rs, j);
    } else {
      i := k;
    }
  }

  ghost function Names(ss: seq<string>): set<string> {
    set s | s in ss
  }

  lemma SectionsAreDistinctNames(count: nat, rs: seq<Record>, ss: seq<string>)
    ensures |Assembled(count, rs, ss).sections| == |Names(ss)|
  {
    StrLessIsOrder();
    var es := StringEntries(ss);
    AddAllCount(es, StrLess);
    assert KeySet(es) == Names(ss) by {
      forall s
        ensures s in KeySet(es) <==> s in Names(ss)
      {
        if s in Names(ss) {
          var i :| 0 <= i < |ss| && ss[i] == s;
          assert es[i] in es;
        }
      }
    }
  }

  lemma InBoundsExactlyWhen(count: nat, rs: seq<Record>, ss: seq<string>)
    ensures InBounds(Assembled(count, rs, ss), Tags(rs)) <==>
            forall i | 0 <= i < |rs| :: LastForTag(rs, i) ==> rs[i].section < |Names(ss)|
  {
    SectionsAreDistinctNames(count, rs, ss);
    var d := Assembled(count, rs, ss);
    hide Assembled, LastForTag, Names;
    if InBounds(d, Tags(rs)) {
      forall i | 0 <= i < |rs| && LastForTag(rs, i)
        ensures rs[i].section < |Names(ss)|
      {
        LastForTagIsHeld(count, rs, ss, i);
        assert Tags(rs)[i] == rs[i].tag;
      }
    } else {
      var k :| 0 <= k < |rs| && !TagInBounds(d, Tags(rs)[k]);
      AssembledHasTags(count, rs, ss, Tags(rs)[k]);
      AssembledSorted(count, rs, ss);
      SameKeysFind(d.names, d.sectionOf, Tags(rs)[k]);
      var i := LastRecordForTag(rs, k);
      LastForTagIsHeld(count, rs, ss, i);
    }
  }

  lemma ParsedIsNotOutOfBounds(p: Cells)
    ensures Parsed(p).Bad? ==> Parsed(p).status != OUT_OF_BOUNDS
  {
    hide MaxSection, ReadTags, ReadSections, Rest;
    if ReadInt(p).Some? && Signed(ReadInt(p).value) >= 0 {
      var count: nat := Signed(ReadInt(p).value);
      TagsAreNotOutOfBounds(Rest(p, 1), count);
      if ReadTags(Rest(p, 1), count).Good? {
        SectionsAreNotOutOfBounds(Rest(p, 1 + 4 * count), MaxSection(ReadTags(Rest(p, 1), count).value));
      }
    }
  }

  lemma SectionsAreNotOutOfBounds(q: Cells, max: Uint32)
    ensures ReadSections(q, max).Bad? ==> ReadSections(q, max).status != OUT_OF_BOUNDS
  {
    hide ReadStrings, Rest;
    if ReadInt(q).Some? {
      StringsAreNotOutOfBounds(Rest(q, 1), ReadInt(q).value);
    }
  }

  lemma {:induction false} TagsAreNotOutOfBounds(p: Cells, n: nat)
    ensures ReadTags(p, n).Bad? ==> ReadTags(p, n).status != OUT_OF_BOUNDS
    decreases n
  {
    if n > 0 {
      TagsAreNotOutOfBounds(Rest(p, 4), n - 1);
    }
  }

  lemma {:induction false} StringsAreNotOutOfBounds(p: Cells, n: nat)
    ensures ReadStrings(p, n).Bad? ==> ReadStrings(p, n).status != OUT_OF_BOUNDS
    decreases n
  {
    if n > 0 {
      StringsAreNotOutOfBounds(Rest(p, 1), n - 1);
    }
  }

  /** Line 238 reads past the sections exactly when everything could be read and the section index of
      some tag, the last one given for it, is not below the number of different section names. */
  lemma OutOfBoundsExactlyWhen(p: Cells)
    ensures FromParcel(p) == Bad(OUT_OF_BOUNDS) <==>
            Parsed(p).Good? &&
            var (rs, ss) := Parsed(p).value;
            exists i | 0 <= i < |rs| :: LastForTag(rs, i) && rs[i].section >= |Names(ss)|
  {
    hide Parsed, Assembled, InBounds, LastForTag, Names, BuildReverse, TriplesFor;
    ParsedIsNotOutOfBounds(p);
    if Parsed(p).Good? {
      var (rs, ss) := Parsed(p).value;
      InBoundsExactlyWhen(|rs|, rs, ss);
    }
  }

  // ----- Reading back what was written -----

  lemma ReadTagBack(r: Record, rest: Cells)
    requires Proper(r)
    ensures ReadTag(WriteTag(r) + rest) == if r.name == "" then Bad(NOT_ENOUGH_DATA) else Good(r)
    ensures Rest(WriteTag(r) + rest, 4) == rest
  {
    var p := WriteTag(r) + rest;
    assert p[0] == Int(r.tag) && Rest(p, 1)[0] == Int(U32(r.kind)) && Rest(p, 2)[0] == Str(r.name) && Rest(p, 3)[0] == Int(r.section);
  }

  lemma WriteTagsFirst(rs: seq<Record>, rest: Cells)
    requires rs != []
    ensures WriteTags(rs) + rest == WriteTag(rs[0]) + (WriteTags(rs[1..]) + rest)
  {
  }

  lemma {:induction false} ReadTagsBack(rs: seq<Record>, rest: Cells)
    requires forall r :: r in rs ==> Proper(r) && r.name != ""
    ensures ReadTags(WriteTags(rs) + rest, |rs|) == Good(rs)
  {
    hide ReadTag, WriteTag, Rest;
    if rs != [] {
      assert rs[0] in rs;
      ReadTagsBack(rs[1..], rest);
      WriteTagsFirst(rs, rest);
      ReadTagBack(rs[0], WriteTags(rs[1..]) + rest);
      assert rs == [rs[0]] + rs[1..];
    }
  }

  /** An empty name, or a missing tag, is noticed. */
  lemma {:induction false} ReadTagsFails(rs: seq<Record>, rest: Cells, n: nat)
    requires forall r :: r in rs ==> Proper(r)
    requires n >= |rs|
    requires (exists r :: r in rs && r.name == "") || (n > |rs| && ReadTag(rest).Bad?)
    ensures ReadTags(WriteTags(rs) + rest, n).Bad?
  {
    hide ReadTag, WriteTag, Rest;
    if rs == [] {
      assert WriteTags(rs) + rest == rest;
    } else {
      assert rs[0] in rs;
      WriteTagsFirst(rs, rest);
      ReadTagBack(rs[0], WriteTags(rs[1..]) + rest);
      if rs[0].name != "" {
        assert rs == [rs[0]] + rs[1..];
        ReadTagsFails(rs[1..], rest, n - 1);
      }
    }
  }

  lemma StringEntriesFirst(v: Sections, ss: seq<string>)
    requires v != [] && StringEntries(ss) == v[1..]
    ensures StringEntries([v[0].key] + ss) == v
  {
    assert v[0].value == ();
    forall i | 0 <= i < |v|
      ensures StringEntries([v[0].key] + ss)[i] == v[i]
    {
      if i > 0 {
        assert StringEntries(ss)[i - 1] == v[1..][i - 1];
      }
    }
  }

  lemma {:induction false} ReadStringsBack(v: Sections)
    ensures var read := ReadStrings(WriteStrings(v), |v|);
            if SectionsFilled(v) then read.Good? && StringEntries(read.value) == v else read.Bad?
  {
    if v != [] {
      ReadStringsBack(v[1..]);
      assert Rest(WriteStrings(v), 1) == WriteStrings(v[1..]);
      assert v == [v[0]] + v[1..];
      hide WriteStrings, StringEntries, Rest;
      WrittenFirst(v);
      var read := ReadStrings(WriteStrings(v[1..]), |v| - 1);
      if v[0].key != "" && read.Good? {
        StringEntriesFirst(v, read.value);
      }
    }
  }

  lemma WrittenFirst(v: Sections)
    requires v != []
    ensures ReadString(WriteStrings(v)) == v[0].key && Rest(WriteStrings(v), 1) == WriteStrings(v[1..])
  {
  }

  lemma {:induction false} MaxSectionIsBound(rs: seq<Record>, n: int)
    requires n > 0 && forall r :: r in rs ==> r.section < n
    ensures MaxSection(rs) < n
  {
    if rs != [] {
      MaxSectionIsBound(rs[..|rs| - 1], n);
    }
  }

  /** Adding what was written in the order it was written rebuilds every index. */
  lemma RecordsRebuild(d: Descriptor, ss: seq<string>)
    requires WellFormed(d) && StringEntries(ss) == d.sections
    ensures Assembled(d.tagCount, Records(d), ss) == d.(reverse := [])
    ensures InBounds(d.(reverse := []), Tags(Records(d)))
    ensures TriplesFor(d.(reverse := []), Tags(Records(d))) == Triples(d)
  {
    StrLessIsOrder();
    var rs := Records(d);
    RecordEntries(d);
    hide Records, NameEntries, SectionEntries, TypeEntries, StringEntries, AddAll, IndexOfKey;
    AddAllInOrder(d.names, IntLess);
    AddAllInOrder(d.sectionOf, IntLess);
    AddAllInOrder(d.types, IntLess);
    AddAllInOrder(d.sections, StrLess);
    RecordIndexes(d);
  }

  lemma RecordEntries(d: Descriptor)
    requires WellFormed(d)
    ensures var rs := Records(d);
            NameEntries(rs) == d.names && SectionEntries(rs) == d.sectionOf && TypeEntries(rs) == d.types
  {
  }

  lemma RecordIndexes(d: Descriptor)
    requires WellFormed(d)
    ensures InBounds(d.(reverse := []), Tags(Records(d)))
    ensures TriplesFor(d.(reverse := []), Tags(Records(d))) == Triples(d)
  {
    hide IndexOfKey;
    var rs := Records(d);
    forall i | 0 <= i < |rs|
      ensures IndexOfKey(d.names, Tags(rs)[i]) == i && IndexOfKey(d.sectionOf, Tags(rs)[i]) == i
    {
      IndexOfSorted(d.names, i);
      IndexOfSorted(d.sectionOf, i);
    }
  }

  /** Nothing written is mistaken for nothing: no name is the empty string. */
  ghost predicate Filled(d: Descriptor) {
    NamesFilled(d.names) && SectionsFilled(d.sections)
  }

  ghost predicate NamesFilled(v: Names) {
    forall e :: e in v ==> e.value != ""
  }

  ghost predicate SectionsFilled(v: Sections) {
    forall e :: e in v ==> e.key != ""
  }

  lemma CountsFit(d: Descriptor)
    requires WellFormed(d)
    ensures 0 <= d.tagCount <= INT32_MAX && |d.sections| < TWO_32
  {
  }

  lemma WrittenBody(d: Descriptor)
    requires WellFormed(d)
    ensures var p := WriteParcel(d);
            && ReadInt(p) == Some(d.tagCount) && Rest(p, 1) == WriteTags(Records(d)) + WriteSections(d.sections)
            && Rest(p, 1 + 4 * |d.names|) == WriteSections(d.sections)
  {
    hide WriteSections, WellFormed;
    CountsFit(d);
  }

  lemma WrittenRecords(d: Descriptor)
    requires WellFormed(d)
    ensures forall r :: r in Records(d) ==> Proper(r) && r.section < |d.sections|
    ensures !NamesFilled(d.names) ==> exists r :: r in Records(d) && r.name == ""
  {
    if e :| e in d.names && e.value == "" {
      var i :| 0 <= i < |d.names| && d.names[i] == e;
      assert Records(d)[i] in Records(d);
    }
  }

  lemma ReadSectionsBack(v: Sections, max: Uint32)
    requires v != [] && |v| < TWO_32
    ensures var read := ReadSections(WriteSections(v), max);
            if SectionsFilled(v) && max < |v| then read.Good? && StringEntries(read.value) == v
            else !SectionsFilled(v) ==> read.Bad?
  {
    hide ReadStrings, WriteStrings;
    ReadStringsBack(v);
    assert Rest(WriteSections(v), 1) == WriteStrings(v);
  }

  lemma TagsAreMissed(d: Descriptor)
    requires WellFormed(d) && |d.sections| <= INT32_MAX
    requires |d.names| < d.tagCount || !NamesFilled(d.names)
    ensures FromParcel(WriteParcel(d)).Bad?
  {
    hide ReadTags, WriteTags, WriteStrings, WriteParcel, Records, WithReverse, ReadSections;
    WrittenBody(d);
    WrittenRecords(d);
    ReadTagsFails(Records(d), WriteSections(d.sections), d.tagCount);
  }

  lemma SectionsAreRead(d: Descriptor)
    requires WellFormed(d) && d.names != []
    ensures var read := ReadSections(WriteSections(d.sections), MaxSection(Records(d)));
            if SectionsFilled(d.sections) then read.Good? && StringEntries(read.value) == d.sections
            else read.Bad?
  {
    hide ReadSections, WriteSections, Records, MaxSection, StringEntries;
    assert d.sections != [] by {
      assert 0 <= d.sectionOf[0].value;
    }
    WrittenRecords(d);
    MaxSectionIsBound(Records(d), |d.sections|);
    ReadSectionsBack(d.sections, MaxSection(Records(d)));
  }

  lemma TagsAreRead(d: Descriptor)
    requires WellFormed(d) && NamesFilled(d.names)
    ensures ReadTags(WriteTags(Records(d)) + WriteSections(d.sections), |d.names|) == Good(Records(d))
  {
    hide ReadTags, WriteTags, WriteSections;
    WrittenRecords(d);
    forall r | r in Records(d)
      ensures Proper(r) && r.name != ""
    {
      var i :| 0 <= i < |d.names| && Records(d)[i] == r;
      assert d.names[i] in d.names;
    }
    ReadTagsBack(Records(d), WriteSections(d.sections));
  }

  lemma SectionsAreMissed(d: Descriptor)
    requires WellFormed(d) && d.names != [] && |d.names| == d.tagCount && NamesFilled(d.names) && !SectionsFilled(d.sections)
    ensures FromParcel(WriteParcel(d)).Bad?
  {
    hide ReadTags, WriteTags, WriteSections, ReadSections, MaxSection, WithReverse, WriteParcel, Records, NamesFilled, SectionsFilled;
    WrittenBody(d);
    TagsAreRead(d);
    SectionsAreRead(d);
  }

  lemma UnfilledIsNotRead(d: Descriptor)
    requires WellFormed(d) && |d.sections| <= INT32_MAX
    requires |d.names| < d.tagCount || !Filled(d)
    ensures FromParcel(WriteParcel(d)).Bad?
  {
    hide FromParcel, WriteParcel, NamesFilled;
    if |d.names| < d.tagCount || !NamesFilled(d.names) {
      TagsAreMissed(d);
    } else {
      SectionsAreMissed(d);
    }
  }

  lemma FilledIsRead(d: Descriptor)
    requires WellFormed(d) && |d.names| == d.tagCount && Filled(d)
    ensures FromParcel(WriteParcel(d)) == Good(d.(reverse := BuildReverse(Triples(d))))
  {
    hide ReadTags, WriteTags, WriteSections, ReadSections, MaxSection, WriteParcel, Assembled, InBounds, BuildReverse, TriplesFor, StringEntries, Records;
    WrittenBody(d);
    TagsAreRead(d);
    if d.tagCount == 0 {
      assert StringEntries([]) == d.sections;
      RecordsRebuild(d, []);
      assert Records(d) == [];
      assert Tags([]) == [];
    } else {
      SectionsAreRead(d);
      RecordsRebuild(d, ReadSections(WriteSections(d.sections), MaxSection(Records(d))).value);
    }
  }

  /** createFromParcel undoes writeToParcel exactly when no tag was announced twice, no string is empty,
      and a pair of names shared by several tags is answered by the greatest of them. */
  lemma RoundTripExactlyWhen(d: Descriptor)
    requires WellFormed(d) && Indexed(d) && |d.sections| <= INT32_MAX
    ensures FromParcel(WriteParcel(d)).Good? <==> |d.names| == d.tagCount && Filled(d)
    ensures FromParcel(WriteParcel(d)) == Good(d) <==> |d.names| == d.tagCount && Filled(d) && AnswersGreatest(d)
  {
    hide FromParcel, WriteParcel, Filled, AnswersGreatest, BuildReverse, Indexed, Triples;
    if |d.names| == d.tagCount && Filled(d) {
      FilledIsRead(d);
      BuiltInOrderExactlyWhen(d);
    } else {
      UnfilledIsNotRead(d);
    }
  }

  /** createFromParcel undoes writeToParcel for distinct tags, filled names and unique pairs of them. */
  lemma UniquePairsRoundTrip(d: Descriptor)
    requires WellFormed(d) && Indexed(d) && |d.sections| <= INT32_MAX
    requires |d.names| == d.tagCount && Filled(d) && UniquePairs(d)
    ensures FromParcel(WriteParcel(d)) == Good(d)
  {
    hide *;
    UniquePairsAnswerGreatest(d);
    RoundTripExactlyWhen(d);
  }
}
