/** Exactly which parcels createFromParcel reads, what it reads from them, and how the others are refused. */
module VendorTagGrammar {
  import opened Wrappers
  import opened KeyedVectors
  import opened VendorTags
  import opened VendorTagParcels

  function Strings(ss: seq<string>): (p: Cells)
    ensures |p| == |ss|
  {
    seq(|ss|, i requires 0 <= i < |ss| => Str(ss[i]))
  }

  /** A parcel of these tags and sections. */
  function Printed(rs: seq<Record>, ss: seq<string>): Cells {
    [Int(U32(|rs|))] + WriteTags(rs) + if rs == [] then [] else [Int(U32(|ss|))] + Strings(ss)
  }

  ghost predicate Named(rs: seq<Record>) {
    forall r :: r in rs ==> Proper(r) && r.name != ""
  }

  ghost predicate AllFilled(ss: seq<string>) {
    forall s :: s in ss ==> s != ""
  }

  /** The count of sections is above every section index; or it is not looked at, because the greatest index and
      one makes zero in 32 bits. */
  predicate EnoughSections(rs: seq<Record>, count: Uint32) {
    (exists i :: 0 <= i < |rs| && rs[i].section == TWO_32 - 1) || (forall i :: 0 <= i < |rs| ==> rs[i].section < count)
  }

  ghost predicate Readable(rs: seq<Record>, ss: seq<string>) {
    && |rs| <= INT32_MAX && Named(rs)
    && (rs == [] ==> ss == [])
    && (rs != [] ==> 0 < |ss| < TWO_32 && AllFilled(ss) && EnoughSections(rs, |ss|))
  }

  // ----- One tag -----

  /** A tag is read exactly from its four cells. */
  lemma TagIsReadExactlyWhen(p: Cells, r: Record)
    ensures ReadTag(p) == Good(r) <==> Proper(r) && r.name != "" && WriteTag(r) <= p
  {
    if WriteTag(r) <= p {
      assert p == WriteTag(r) + p[4..];
      assert p[0] == WriteTag(r)[0] && p[1] == WriteTag(r)[1] && p[2] == WriteTag(r)[2] && p[3] == WriteTag(r)[3];
    }
    if ReadTag(p) == Good(r) {
      assert |p| >= 4 && p[..4] == WriteTag(r);
    }
  }

  /** BAD_VALUE is for a number that is there but out of range, and NOT_ENOUGH_DATA for anything else. */
  lemma BadTagStatus(p: Cells)
    requires ReadTag(p).Bad?
    ensures var tagRead := p != [] && p[0].Int?;
            var kindRead := |p| > 1 && p[1].Int?;
            ReadTag(p).status == if tagRead && (p[0].bits < 0x8000_0000 || (kindRead && p[1].bits > 5)) then BAD_VALUE
                                 else NOT_ENOUGH_DATA
  {
  }

  // ----- The tags -----

  lemma NoTagsAreRead(p: Cells, rs: seq<Record>)
    ensures ReadTags(p, 0) == Good(rs) <==> rs == []
  {
  }

  lemma FirstTagIsRead(p: Cells, rs: seq<Record>, n: nat)
    requires n > 0
    ensures ReadTags(p, n) == Good(rs) <==>
            rs != [] && ReadTag(p) == Good(rs[0]) && ReadTags(Rest(p, 4), n - 1) == Good(rs[1..])
  {
    hide ReadTag, Rest;
    if rs != [] {
      assert rs == [rs[0]] + rs[1..];
    }
    if ReadTag(p).Good? && ReadTags(Rest(p, 4), n - 1).Good? {
      var xs := [ReadTag(p).value] + ReadTags(Rest(p, 4), n - 1).value;
      assert xs[0] == ReadTag(p).value && xs[1..] == ReadTags(Rest(p, 4), n - 1).value;
    }
  }

  lemma FirstTagIsPrinted(rs: seq<Record>, p: Cells)
    requires rs != []
    ensures WriteTags(rs) <= p <==> WriteTag(rs[0]) <= p && WriteTags(rs[1..]) <= Rest(p, 4)
  {
    var a, b := WriteTag(rs[0]), WriteTags(rs[1..]);
    PrefixSplits(a, b, p);
    if a <= p {
      assert Rest(p, 4) == p[4..];
    }
  }

  lemma PrefixSplits(a: Cells, b: Cells, p: Cells)
    ensures a + b <= p <==> a <= p && b <= p[if |a| <= |p| then |a| else 0..]
  {
    if a + b <= p {
      assert p[..|a|] == (a + b)[..|a|] == a;
      assert p[|a|..][..|b|] == p[|a|..|a + b|] == (a + b)[|a|..] == b;
    }
    if a <= p && b <= p[|a|..] {
      assert p == a + p[|a|..];
      assert p[|a|..] == b + p[|a|..][|b|..];
      assert p == a + b + p[|a|..][|b|..];
    }
  }

  lemma NamedFirst(rs: seq<Record>)
    requires rs != []
    ensures Named(rs) <==> Proper(rs[0]) && rs[0].name != "" && Named(rs[1..])
  {
    hide Proper;
    assert rs == [rs[0]] + rs[1..];
  }

  /** Tags are read exactly from their cells. */
  lemma {:induction false} TagsAreReadExactlyWhen(p: Cells, rs: seq<Record>, n: nat)
    ensures ReadTags(p, n) == Good(rs) <==> |rs| == n && Named(rs) && WriteTags(rs) <= p
    decreases n
  {
    hide ReadTags, WriteTag, Rest, Named, Proper, ReadTag;
    if n == 0 {
      NoTagsAreRead(p, rs);
      NothingNamed();
    } else {
      FirstTagIsRead(p, rs, n);
      if rs != [] {
        TagIsReadExactlyWhen(p, rs[0]);
        TagsAreReadExactlyWhen(Rest(p, 4), rs[1..], n - 1);
        FirstTagIsPrinted(rs, p);
        NamedFirst(rs);
      }
    }
  }

  lemma NothingNamed()
    ensures Named([]) && AllFilled([])
  {
  }

  // ----- The strings -----

  lemma FirstStringIsRead(p: Cells, ss: seq<string>, n: nat)
    requires n > 0
    ensures ReadStrings(p, n) == Good(ss) <==>
            ss != [] && ReadString(p) == ss[0] != "" && ReadStrings(Rest(p, 1), n - 1) == Good(ss[1..])
  {
    hide Rest;
    if ss != [] {
      assert ss == [ss[0]] + ss[1..];
    }
    if ReadStrings(Rest(p, 1), n - 1).Good? {
      var xs := [ReadString(p)] + ReadStrings(Rest(p, 1), n - 1).value;
      assert xs[0] == ReadString(p) && xs[1..] == ReadStrings(Rest(p, 1), n - 1).value;
    }
  }

  lemma FirstStringIsPrinted(ss: seq<string>, p: Cells)
    requires ss != []
    ensures Strings(ss) <= p <==> p != [] && p[0] == Str(ss[0]) && Strings(ss[1..]) <= Rest(p, 1)
  {
    assert Strings(ss) == [Str(ss[0])] + Strings(ss[1..]);
    PrefixSplits([Str(ss[0])], Strings(ss[1..]), p);
    if p != [] {
      assert [Str(ss[0])] <= p <==> p[0] == Str(ss[0]);
    }
  }

  lemma FilledFirst(ss: seq<string>)
    requires ss != []
    ensures AllFilled(ss) <==> ss[0] != "" && AllFilled(ss[1..])
  {
    assert ss[0] in ss;
    forall s
      ensures s in ss <==> s == ss[0] || s in ss[1..]
    {
      assert ss == [ss[0]] + ss[1..];
    }
  }

  lemma {:induction false} StringsAreReadExactlyWhen(p: Cells, ss: seq<string>, n: nat)
    ensures ReadStrings(p, n) == Good(ss) <==> |ss| == n && AllFilled(ss) && Strings(ss) <= p
    decreases n
  {
    hide Rest, AllFilled;
    if n == 0 {
      NothingNamed();
    } else {
      hide ReadStrings;
      FirstStringIsRead(p, ss, n);
      if ss != [] {
        FirstStringIsPrinted(ss, p);
        FilledFirst(ss);
        hide Strings;
        StringsAreReadExactlyWhen(Rest(p, 1), ss[1..], n - 1);
      }
    }
  }

  // ----- The sections -----

  lemma {:induction false} MaxSectionIsReached(rs: seq<Record>)
    ensures forall i :: 0 <= i < |rs| ==> rs[i].section <= MaxSection(rs)
    ensures rs != [] ==> exists i :: 0 <= i < |rs| && rs[i].section == MaxSection(rs)
  {
    if rs != [] {
      var front := rs[..|rs| - 1];
      MaxSectionIsReached(front);
      assert forall i :: 0 <= i < |front| ==> front[i] == rs[i];
      if front != [] && MaxSection(front) >= rs[|rs| - 1].section {
        var i :| 0 <= i < |front| && front[i].section == MaxSection(front);
        assert rs[i].section == MaxSection(rs);
      } else {
        assert rs[|rs| - 1].section == MaxSection(rs);
      }
    }
  }

  /** The comparison with the greatest index and one, which may wrap. */
  lemma EnoughIsAboveMax(rs: seq<Record>, count: Uint32)
    requires rs != []
    ensures EnoughSections(rs, count) <==> count >= (MaxSection(rs) + 1) % TWO_32
  {
    MaxSectionIsReached(rs);
    var k :| 0 <= k < |rs| && rs[k].section == MaxSection(rs);
    hide MaxSection;
    if MaxSection(rs) == TWO_32 - 1 {
      assert EnoughSections(rs, count);
    } else {
      assert (MaxSection(rs) + 1) % TWO_32 == MaxSection(rs) + 1;
    }
  }

  lemma SectionsAreReadExactlyWhen(p: Cells, rs: seq<Record>, ss: seq<string>)
    requires rs != []
    ensures ReadSections(p, MaxSection(rs)) == Good(ss) <==>
            0 < |ss| < TWO_32 && AllFilled(ss) && EnoughSections(rs, |ss|) && [Int(U32(|ss|))] + Strings(ss) <= p
  {
    hide ReadStrings, EnoughSections, AllFilled, MaxSection, Strings;
    PrefixSplits([Int(U32(|ss|))], Strings(ss), p);
    if ReadInt(p).Some? {
      var n := ReadInt(p).value;
      EnoughIsAboveMax(rs, n);
      StringsAreReadExactlyWhen(Rest(p, 1), ss, n);
      assert [Int(U32(|ss|))] <= p <==> p[0] == Int(U32(|ss|));
      assert Rest(p, 1) == p[1..];
    }
  }

  // ----- The parcel -----

  /** createFromParcel reads these tags and sections exactly from a parcel that begins with their printed form; the
      tags and names are in order and there are sections enough. */
  lemma ParsedExactlyWhen(p: Cells, rs: seq<Record>, ss: seq<string>)
    ensures Parsed(p) == Good((rs, ss)) <==> Readable(rs, ss) && Printed(rs, ss) <= p
  {
    hide ReadTags, ReadSections, MaxSection, Named, AllFilled, EnoughSections, WriteTags, Strings;
    var tail := if rs == [] then [] else [Int(U32(|ss|))] + Strings(ss);
    PrefixSplits([Int(U32(|rs|))] + WriteTags(rs), tail, p);
    PrefixSplits([Int(U32(|rs|))], WriteTags(rs), p);
    if ReadInt(p).Some? && Signed(ReadInt(p).value) >= 0 {
      var count: nat := Signed(ReadInt(p).value);
      TagsAreReadExactlyWhen(Rest(p, 1), rs, count);
      CountIsPrinted(p, |rs|);
      RestOfTags(p, count);
      if rs != [] {
        SectionsAreReadExactlyWhen(Rest(p, 1 + 4 * count), rs, ss);
      }
    } else {
      CountIsMissing(p, |rs|);
    }
  }

  lemma CountIsPrinted(p: Cells, n: nat)
    requires ReadInt(p).Some? && 0 <= Signed(ReadInt(p).value)
    ensures n <= INT32_MAX ==> ([Int(U32(n))] <= p <==> n == Signed(ReadInt(p).value))
  {
    assert [Int(U32(n))] <= p <==> p[0] == Int(U32(n));
  }

  lemma CountIsMissing(p: Cells, n: nat)
    requires ReadInt(p).None? || Signed(ReadInt(p).value) < 0
    ensures n <= INT32_MAX ==> !([Int(U32(n))] <= p)
  {
    assert [Int(U32(n))] <= p ==> p != [] && p[0] == [Int(U32(n))][0];
  }

  lemma RestOfTags(p: Cells, count: nat)
    requires p != []
    ensures Rest(p, 1) == p[1..]
    ensures 1 + 4 * count <= |p| ==> Rest(p, 1 + 4 * count) == p[1 + 4 * count..]
  {
  }

  function SectionKeys(v: Sections): (ss: seq<string>)
    ensures |ss| == |v|
  {
    seq(|v|, i requires 0 <= i < |v| => v[i].key)
  }

  /** writeToParcel writes the count of tags announced, the tags held, and, if there are any, the sections. */
  lemma WriteParcelIs(d: Descriptor)
    requires WellFormed(d)
    ensures d.names == [] ==> WriteParcel(d) == [Int(0)]
    ensures d.names != [] ==>
              WriteParcel(d) == [Int(d.tagCount)] + WriteTags(Records(d)) + ([Int(|d.sections|)] + Strings(SectionKeys(d.sections)))
    ensures |d.names| == d.tagCount ==> WriteParcel(d) == Printed(Records(d), SectionKeys(d.sections))
  {
    assert WriteStrings(d.sections) == Strings(SectionKeys(d.sections));
    if d.names != [] {
      assert 0 <= d.sectionOf[0].value < |d.sections|;
    }
    hide WriteStrings, Strings, SectionKeys;
  }

  // ----- How a parcel is refused -----

  lemma {:induction false} TagsEndAt(rs: seq<Record>, n: nat, rest: Cells)
    requires Named(rs) && |rs| < n && ReadTag(rest).Bad?
    ensures ReadTags(WriteTags(rs) + rest, n) == Bad(ReadTag(rest).status)
    decreases n
  {
    hide ReadTag, WriteTag, Rest, Proper;
    if rs == [] {
      assert WriteTags(rs) + rest == rest;
    } else {
      NamedFirst(rs);
      WriteTagsFirst(rs, rest);
      ReadTagBack(rs[0], WriteTags(rs[1..]) + rest);
      TagsEndAt(rs[1..], n - 1, rest);
    }
  }

  lemma {:induction false} StringsEndAt(ss: seq<string>, n: nat, rest: Cells)
    requires AllFilled(ss) && |ss| < n && ReadString(rest) == ""
    ensures ReadStrings(Strings(ss) + rest, n) == Bad(NOT_ENOUGH_DATA)
    decreases n
  {
    if ss == [] {
      assert Strings(ss) + rest == rest;
    } else {
      FilledFirst(ss);
      var p := Strings(ss) + rest;
      assert p[0] == Str(ss[0]) && p[1..] == Strings(ss[1..]) + rest;
      StringsEndAt(ss[1..], n - 1, rest);
    }
  }

  lemma NoCountStatus(p: Cells)
    ensures (p == [] || p[0].Str?) ==> FromParcel(p) == Bad(NOT_ENOUGH_DATA)
    ensures p != [] && p[0].Int? && p[0].bits > INT32_MAX ==> FromParcel(p) == Bad(BAD_VALUE)
  {
  }

  /** The first tag that cannot be read decides. */
  lemma BadTagIsReported(rs: seq<Record>, count: nat, rest: Cells)
    requires Named(rs) && |rs| < count <= INT32_MAX && ReadTag(rest).Bad?
    ensures FromParcel([Int(count)] + (WriteTags(rs) + rest)) == Bad(ReadTag(rest).status)
  {
    hide ReadTags, ReadTag, WriteTags, ReadSections, WithReverse, Assembled;
    TagsEndAt(rs, count, rest);
    var p := [Int(count)] + (WriteTags(rs) + rest);
    assert Rest(p, 1) == WriteTags(rs) + rest;
  }

  lemma TagsThenSections(rs: seq<Record>, rest: Cells)
    requires Named(rs) && 0 < |rs| <= INT32_MAX
    ensures var p := [Int(|rs|)] + (WriteTags(rs) + rest);
            var read := ReadSections(rest, MaxSection(rs));
            Parsed(p) == if read.Good? then Good((rs, read.value)) else Bad(read.status)
  {
    hide ReadTags, ReadSections, MaxSection, Named, Rest, WriteTags;
    var p := [Int(|rs|)] + (WriteTags(rs) + rest);
    BehindTags(rs, rest);
    TagsAreReadExactlyWhen(Rest(p, 1), rs, |rs|);
  }

  lemma BehindTags(rs: seq<Record>, rest: Cells)
    requires |rs| <= INT32_MAX
    ensures var p := [Int(|rs|)] + (WriteTags(rs) + rest);
            WriteTags(rs) <= Rest(p, 1) && Rest(p, 1 + 4 * |rs|) == rest
  {
    hide Rest, WriteTags;
    var tags: Cells, first: Cell := WriteTags(rs), Int(|rs|);
    Behind(first, tags, rest);
    RestAt([first] + (tags + rest), 1);
    RestAt([first] + (tags + rest), 1 + |tags|);
  }

  lemma RestAt(p: Cells, n: nat)
    requires n <= |p|
    ensures Rest(p, n) == p[n..]
  {
  }

  lemma Behind(first: Cell, tags: Cells, rest: Cells)
    ensures ([first] + (tags + rest))[1..] == tags + rest
    ensures ([first] + (tags + rest))[1 + |tags|..] == rest
    ensures tags <= tags + rest
  {
  }

  /** Behind the tags: a missing count, a count that is not above every section index, a count of zero that got by,
      and a section name that is missing or empty. */
  lemma BadSectionsAreReported(rs: seq<Record>, rest: Cells)
    requires Named(rs) && 0 < |rs| <= INT32_MAX
    ensures var made := FromParcel([Int(|rs|)] + (WriteTags(rs) + rest));
            && (rest == [] || rest[0].Str? ==> made == Bad(NOT_ENOUGH_DATA))
            && (rest != [] && rest[0].Int? && !EnoughSections(rs, rest[0].bits) ==> made == Bad(BAD_VALUE))
            && (rest != [] && rest[0] == Int(0) && EnoughSections(rs, 0) ==> made == Bad(FATAL))
  {
    hide ReadStrings, MaxSection, WriteTags, WithReverse, Assembled, Named, EnoughSections;
    TagsThenSections(rs, rest);
    if rest != [] && rest[0].Int? {
      EnoughIsAboveMax(rs, rest[0].bits);
    }
    hide Parsed;
  }

  lemma BadStringIsReported(rs: seq<Record>, count: Uint32, ss: seq<string>, rest: Cells)
    requires Named(rs) && 0 < |rs| <= INT32_MAX && EnoughSections(rs, count)
    requires AllFilled(ss) && |ss| < count && ReadString(rest) == ""
    ensures FromParcel([Int(|rs|)] + (WriteTags(rs) + ([Int(count)] + (Strings(ss) + rest)))) == Bad(NOT_ENOUGH_DATA)
  {
    hide ReadStrings, MaxSection, WriteTags, WithReverse, Assembled, Named, EnoughSections, Strings, AllFilled;
    var sections := [Int(count)] + (Strings(ss) + rest);
    TagsThenSections(rs, sections);
    EnoughIsAboveMax(rs, count);
    StringsEndAt(ss, count, rest);
    assert Rest(sections, 1) == Strings(ss) + rest;
    hide Parsed;
  }

  // ----- What is held of a parcel that was read -----

  /** The descriptor holds exactly the tags of the parcel, each with the name, type and section index that were given
      last for it, and exactly the parcel's section names, in order. */
  ghost predicate HoldsRecords(d: Descriptor, rs: seq<Record>, ss: seq<string>) {
    && d.tagCount == |rs|
    && (forall tag :: GetTagName(d, tag).Some? <==> tag in Tags(rs))
    && (forall i | 0 <= i < |rs| :: LastForTag(rs, i) ==>
          && GetTagName(d, rs[i].tag) == Some(rs[i].name)
          && ValueFor(d.types, rs[i].tag) == Some(rs[i].kind) && ValueFor(d.sectionOf, rs[i].tag) == Some(rs[i].section as int))
    && Sorted(d.sections, StrLess) && (forall s :: HasKey(d.sections, s) <==> s in ss)
  }

  lemma LastRecordIsHeld(count: nat, rs: seq<Record>, ss: seq<string>, i: nat)
    requires i < |rs| && LastForTag(rs, i)
    ensures var d := Assembled(count, rs, ss);
            && GetTagName(d, rs[i].tag) == Some(rs[i].name)
            && ValueFor(d.types, rs[i].tag) == Some(rs[i].kind) && ValueFor(d.sectionOf, rs[i].tag) == Some(rs[i].section as int)
  {
    AddAllFindsLast(NameEntries(rs), IntLess, i);
    AddAllFindsLast(SectionEntries(rs), IntLess, i);
    AddAllFindsLast(TypeEntries(rs), IntLess, i);
  }

  lemma SectionNamesAreHeld(count: nat, rs: seq<Record>, ss: seq<string>, s: string)
    ensures HasKey(Assembled(count, rs, ss).sections, s) <==> s in ss
  {
    var es := StringEntries(ss);
    AddAllHasKeys(es, StrLess, s);
    assert HasKey(es, s) <==> s in ss by {
      if s in ss {
        var i :| 0 <= i < |ss| && ss[i] == s;
        assert es[i].key == s;
      }
    }
    KeyIsIndexed(AddAll(es, StrLess), s);
  }

  lemma KeyIsIndexed(v: Sections, s: string)
    ensures IndexOfKey(v, s) >= 0 <==> HasKey(v, s)
  {
  }

  lemma AssembledHolds(rs: seq<Record>, ss: seq<string>, reverse: Reverse)
    ensures HoldsRecords(Assembled(|rs|, rs, ss).(reverse := reverse), rs, ss)
  {
    var d := Assembled(|rs|, rs, ss);
    AssembledSorted(|rs|, rs, ss);
    hide Assembled, LastForTag, HasKey;
    forall tag
      ensures GetTagName(d, tag).Some? <==> tag in Tags(rs)
    {
      AssembledHasTags(|rs|, rs, ss, tag);
    }
    forall i | 0 <= i < |rs| && LastForTag(rs, i)
      ensures GetTagName(d, rs[i].tag) == Some(rs[i].name)
      ensures ValueFor(d.types, rs[i].tag) == Some(rs[i].kind) && ValueFor(d.sectionOf, rs[i].tag) == Some(rs[i].section as int)
    {
      LastRecordIsHeld(|rs|, rs, ss, i);
    }
    forall s
      ensures HasKey(d.sections, s) <==> s in ss
    {
      SectionNamesAreHeld(|rs|, rs, ss, s);
    }
    hide IndexOfKey, Tags, ValueFor;
  }

  /** Whatever the parcel: what is made of it holds what was read. */
  lemma FromParcelHolds(p: Cells)
    requires FromParcel(p).Good?
    ensures Parsed(p).Good? && HoldsRecords(FromParcel(p).value, Parsed(p).value.0, Parsed(p).value.1)
  {
    hide Parsed, Assembled, InBounds, BuildReverse, TriplesFor, HoldsRecords;
    var (rs, ss) := Parsed(p).value;
    AssembledHolds(rs, ss, FromParcel(p).value.reverse);
  }

  /** lookupTag answers with the tag read last of those that have both names in the end. */
  lemma LookupAnswersLastRead(p: Cells, i: nat)
    requires FromParcel(p).Good? && Parsed(p).Good? && WellFormed(FromParcel(p).value)
    requires var d, tags := FromParcel(p).value, Tags(Parsed(p).value.0);
             i < |tags| && forall j :: i < j < |tags| ==>
               GetTagName(d, tags[j]) != GetTagName(d, tags[i]) || GetSectionName(d, tags[j]) != GetSectionName(d, tags[i])
    ensures var d, tag := FromParcel(p).value, Tags(Parsed(p).value.0)[i];
            && GetTagName(d, tag).Some? && GetSectionName(d, tag).Some?
            && Find(d.reverse, GetSectionName(d, tag).value, GetTagName(d, tag).value) == Some(tag)
  {
    hide Parsed, Assembled, BuildReverse, TriplesFor, Find, WellFormed, GetTagName, GetSectionName, InBounds;
    var (rs, ss) := Parsed(p).value;
    var d, tags := Assembled(|rs|, rs, ss), Tags(rs);
    var r := FromParcel(p).value;
    var ts := TriplesFor(d, tags);
    forall j | 0 <= j < |tags|
      ensures GetTagName(r, tags[j]) == Some(ts[j].name) && GetSectionName(r, tags[j]) == Some(ts[j].section) && ts[j].tag == tags[j]
    {
      TripleIsOfGetters(d, r, tags, j);
    }
    BuiltReverseAnswersLast(ts, i);
  }

  lemma TripleIsOfGetters(d: Descriptor, r: Descriptor, tags: seq<int>, j: nat)
    requires InBounds(d, tags) && r == d.(reverse := r.reverse) && WellFormed(r) && j < |tags|
    ensures var t := TriplesFor(d, tags)[j];
            GetTagName(r, tags[j]) == Some(t.name) && GetSectionName(r, tags[j]) == Some(t.section) && t.tag == tags[j]
  {
    hide WellFormed;
    assert TagInBounds(d, tags[j]);
  }
}
