/** The descriptor object and its loops (libshims/camera/VendorTagDescriptor.cpp). */
module VendorTagDescriptorClass {
  import opened Wrappers
  import opened KeyedVectors
  import opened VendorTags
  import opened VendorTagParcels
  import opened VendorTagOps
  import opened VendorTagWrites

  /** What this repository uses of Android's Parcel, which is not part of this model: reading moves
      along the cells, and writing adds cells at the end, unless the write fails. */
  class Parcel {
    var cells: Cells
    var pos: nat
    /** The writes tried so far, and which of them fail for want of memory. */
    var writes: nat
    const fails: Failing

    constructor (cells: Cells, fails: Failing)
      ensures Valid() && this.cells == cells && pos == 0 && writes == 0 && this.fails == fails
    {
      this.cells, pos, writes, this.fails := cells, 0, 0, fails;
    }

    ghost predicate Valid()
      reads this
    {
      pos <= |cells|
    }

    ghost function Remaining(): Cells
      reads this
      requires Valid()
    {
      cells[pos..]
    }

    method ReadInt32() returns (bits: Option<Uint32>)
      requires Valid()
      modifies `pos
      ensures Valid()
      ensures bits == ReadInt(old(Remaining()))
      ensures Remaining() == if bits.Some? then Rest(old(Remaining()), 1) else old(Remaining())
    {
      if pos < |cells| && cells[pos].Int? {
        bits := Some(cells[pos].bits);
        pos := pos + 1;
      } else {
        bits := None;
      }
    }

    method ReadString8() returns (text: string)
      requires Valid()
      modifies `pos
      ensures Valid()
      ensures text == ReadString(old(Remaining()))
      ensures text != "" ==> Remaining() == Rest(old(Remaining()), 1)
    {
      if pos < |cells| && cells[pos].Str? {
        text := cells[pos].text;
        pos := pos + 1;
      } else {
        text := "";
      }
    }

    method WriteInt32(bits: Uint32) returns (status: Status)
      requires Valid() && pos == |cells|
      modifies this
      ensures Valid() && pos == |cells| && writes == old(writes) + 1
      ensures status == (if fails(old(writes)) then NO_MEMORY else OK)
      ensures cells == old(cells) + if status == OK then [Int(bits)] else []
    {
      status := Append(Int(bits));
    }

    method WriteString8(text: string) returns (status: Status)
      requires Valid() && pos == |cells|
      modifies this
      ensures Valid() && pos == |cells| && writes == old(writes) + 1
      ensures status == (if fails(old(writes)) then NO_MEMORY else OK)
      ensures cells == old(cells) + if status == OK then [Str(text)] else []
    {
      status := Append(Str(text));
    }

    method Append(cell: Cell) returns (status: Status)
      requires Valid() && pos == |cells|
      modifies this
      ensures Valid() && pos == |cells| && writes == old(writes) + 1
      ensures status == (if fails(old(writes)) then NO_MEMORY else OK)
      ensures cells == old(cells) + if status == OK then [cell] else []
    {
      status := if fails(writes) then NO_MEMORY else OK;
      writes := writes + 1;
      if status == OK {
        cells := cells + [cell];
        pos := |cells|;
      }
    }
  }

  // ----- How each loop's step extends what is built so far -----

  function Prepend<T>(xs: seq<T>, tail: Result<seq<T>>): Result<seq<T>> {
    match tail
    case Bad(status) => Bad(status)
    case Good(ys) => Good(xs + ys)
  }

  lemma PrependStep<T>(xs: seq<T>, x: T, tail: Result<seq<T>>)
    ensures Prepend(xs, Cons(x, tail)) == Prepend(xs + [x], tail)
  {
    if tail.Good? {
      assert xs + ([x] + tail.value) == xs + [x] + tail.value;
    }
  }

  lemma PrependEnds<T>(xs: seq<T>, tail: Result<seq<T>>)
    ensures Prepend([], tail) == tail
    ensures Prepend(xs, Good([])) == Good(xs)
  {
    assert xs + [] == xs;
    if tail.Good? {
      assert [] + tail.value == tail.value;
    }
  }

  lemma ReadTagsStep(rs: seq<Record>, p: Cells, n: nat)
    requires n > 0
    ensures Prepend(rs, ReadTags(p, n))
         == if ReadTag(p).Bad? then Bad(ReadTag(p).status) else Prepend(rs + [ReadTag(p).value], ReadTags(Rest(p, 4), n - 1))
  {
    if ReadTag(p).Good? {
      PrependStep(rs, ReadTag(p).value, ReadTags(Rest(p, 4), n - 1));
    }
  }

  lemma RestStep(p: Cells, i: nat)
    ensures Rest(Rest(p, 4 * i), 4) == Rest(p, 4 * (i + 1))
  {
  }

  lemma PrependBad<T>(xs: seq<T>, status: Status)
    ensures Prepend(xs, Bad(status)) == Bad(status)
  {
  }

  lemma NothingRead(p: Cells)
    ensures ReadTags(p, 0) == Good([]) && ReadStrings(p, 0) == Good([]) && Rest(p, 0) == p
    ensures AddAll(NameEntries([]), IntLess) == [] && AddAll(SectionEntries([]), IntLess) == [] && AddAll(TypeEntries([]), IntLess) == []
    ensures AddAll(StringEntries([]), StrLess) == [] && Tags([]) == [] && MaxSection([]) == 0
  {
  }

  lemma AddAllStep<K, V>(es: seq<Entry<K, V>>, less: (K, K) -> bool, e: Entry<K, V>)
    ensures AddAll(es + [e], less) == Add(AddAll(es, less), less, e.key, e.value)
  {
    assert (es + [e])[..|es|] == es;
  }

  lemma RecordStep(rs: seq<Record>, r: Record)
    ensures AddAll(NameEntries(rs + [r]), IntLess) == Add(AddAll(NameEntries(rs), IntLess), IntLess, r.tag, r.name)
    ensures AddAll(SectionEntries(rs + [r]), IntLess) == Add(AddAll(SectionEntries(rs), IntLess), IntLess, r.tag, r.section)
    ensures AddAll(TypeEntries(rs + [r]), IntLess) == Add(AddAll(TypeEntries(rs), IntLess), IntLess, r.tag, r.kind)
    ensures MaxSection(rs + [r]) == if MaxSection(rs) >= r.section then MaxSection(rs) else r.section
    ensures Tags(rs + [r]) == Tags(rs) + [r.tag]
  {
    hide AddAll, Add;
    assert NameEntries(rs + [r]) == NameEntries(rs) + [Entry(r.tag as int, r.name)];
    assert SectionEntries(rs + [r]) == SectionEntries(rs) + [Entry(r.tag as int, r.section as int)];
    assert TypeEntries(rs + [r]) == TypeEntries(rs) + [Entry(r.tag as int, r.kind)];
    AddAllStep(NameEntries(rs), IntLess, Entry(r.tag as int, r.name));
    AddAllStep(SectionEntries(rs), IntLess, Entry(r.tag as int, r.section as int));
    AddAllStep(TypeEntries(rs), IntLess, Entry(r.tag as int, r.kind));
    assert (rs + [r])[..|rs|] == rs;
  }

  lemma StringStep(ss: seq<string>, s: string)
    ensures AddAll(StringEntries(ss + [s]), StrLess) == Add(AddAll(StringEntries(ss), StrLess), StrLess, s, ())
  {
    assert StringEntries(ss + [s]) == StringEntries(ss) + [Entry(s, ())];
    AddAllStep(StringEntries(ss), StrLess, Entry(s, ()));
  }

  lemma ReverseStep(d: Descriptor, tags: seq<int>, i: nat)
    requires i < |tags| && InBounds(d, tags[..i]) && InBounds(d, [tags[i]])
    ensures InBounds(d, tags[..i + 1])
    ensures var t := TripleFor(d, tags[i]);
            BuildReverse(TriplesFor(d, tags[..i + 1])) == AddReverse(BuildReverse(TriplesFor(d, tags[..i])), t.section, t.name, t.tag)
  {
    hide AddReverse, IndexOfKey;
    assert [tags[i]][0] == tags[i];
    forall k | 0 <= k < i + 1
      ensures var s := IndexOfKey(d.sectionOf, tags[k]);
              s >= 0 && IndexOfKey(d.names, tags[k]) >= 0 && 0 <= d.sectionOf[s].value < |d.sections|
    {
      assert k < i ==> tags[..i][k] == tags[k];
    }
    var ts := TriplesFor(d, tags[..i + 1]);
    assert ts[..i] == TriplesFor(d, tags[..i]);
  }

  lemma {:induction false} WriteTagsAppend(a: seq<Record>, b: seq<Record>)
    ensures WriteTags(a + b) == WriteTags(a) + WriteTags(b)
  {
    hide WriteTag;
    if a == [] {
      assert a + b == b;
    } else {
      assert (a + b)[1..] == a[1..] + b;
      WriteTagsAppend(a[1..], b);
    }
  }

  /** The tags up to i, tag i, and the tags after it. */
  lemma WriteTagsSplit(rs: seq<Record>, i: nat)
    requires i < |rs|
    ensures WriteTags(rs[..i + 1]) == WriteTags(rs[..i]) + WriteTag(rs[i])
    ensures WriteTags(rs) == WriteTags(rs[..i + 1]) + WriteTags(rs[i + 1..])
  {
    hide *;
    SplitAt(rs, i);
    WriteTagsAppend(rs[..i], [rs[i]]);
    OneTag(rs[i]);
    WriteTagsAppend(rs[..i + 1], rs[i + 1..]);
  }

  lemma SplitAt<T>(xs: seq<T>, i: nat)
    requires i < |xs|
    ensures xs[..i + 1] == xs[..i] + [xs[i]] && xs == xs[..i + 1] + xs[i + 1..]
  {
  }

  lemma OneTag(r: Record)
    ensures WriteTags([r]) == WriteTag(r)
  {
    assert [r][1..] == [];
    assert WriteTag(r) + [] == WriteTag(r);
  }

  /** One round of the writing loop: what the tags before i and tag i make together. */
  lemma TagWritten(rs: seq<Record>, i: nat, fails: Failing, k: nat)
    requires i < |rs| && WriteAll(WriteTags(rs[..i]), fails, k).status == OK
    ensures var w := WriteAll(WriteTag(rs[i]), fails, k + 4 * i);
            if w.status == OK then WriteAll(WriteTags(rs[..i + 1]), fails, k).status == OK
            else WriteAll(WriteTags(rs), fails, k) == Written(WriteTags(rs[..i]) + w.cells, 4 * i + w.tried, NO_MEMORY)
  {
    hide WriteTag, WriteAll, WriteTags;
    WriteTagsSplit(rs, i);
    WriteAllAppend(WriteTags(rs[..i]), WriteTag(rs[i]), fails, k);
    WriteAllAppend(WriteTags(rs[..i + 1]), WriteTags(rs[i + 1..]), fails, k);
  }

  /** The four writes of a tag. */
  lemma FourWrites(a: Cell, b: Cell, c: Cell, d: Cell, fails: Failing, k: nat)
    ensures WriteAll([a, b, c, d], fails, k) ==
            if fails(k) then Written([], 1, NO_MEMORY)
            else if fails(k + 1) then Written([a], 2, NO_MEMORY)
            else if fails(k + 2) then Written([a, b], 3, NO_MEMORY)
            else if fails(k + 3) then Written([a, b, c], 4, NO_MEMORY)
            else Written([a, b, c, d], 4, OK)
  {
    hide WriteAll;
    WriteAllFirst(a, [b, c, d], fails, k);
    WriteAllFirst(b, [c, d], fails, k + 1);
    WriteAllFirst(c, [d], fails, k + 2);
    WriteAllFirst(d, [], fails, k + 3);
    WriteAllNothing(fails, k + 4);
    assert [a] + [b, c, d] == [a, b, c, d] && [b] + [c, d] == [b, c, d] && [c] + [d] == [c, d] && [d] + [] == [d];
  }

  /** One round of a loop that writes cell after cell. */
  lemma CellWritten(all: Cells, i: nat, fails: Failing, k: nat)
    requires i < |all| && WriteAll(all[..i], fails, k).status == OK
    ensures if fails(k + i) then WriteAll(all, fails, k) == Written(all[..i], i + 1, NO_MEMORY)
            else WriteAll(all[..i + 1], fails, k).status == OK
  {
    hide WriteAll;
    assert all[..i + 1] == all[..i] + [all[i]] && all == all[..i + 1] + all[i + 1..];
    assert [all[i]] + [] == [all[i]];
    WriteAllFirst(all[i], [], fails, k + i);
    WriteAllNothing(fails, k + i + 1);
    WriteAllAppend(all[..i], [all[i]], fails, k);
    WriteAllAppend(all[..i + 1], all[i + 1..], fails, k);
    assert all[..i] + [] == all[..i];
  }

  lemma NoTags()
    ensures WriteTags([]) == []
  {
  }

  lemma SameLength(v: Sections)
    ensures |WriteStrings(v)| == |v|
  {
  }

  lemma StringAt(v: Sections, i: nat)
    requires i < |v|
    ensures i < |WriteStrings(v)| && WriteStrings(v)[i] == Str(v[i].key)
  {
  }

  // ----- What the module answers, in the order of its tags -----

  lemma MapEntriesStep<V>(tags: seq<Uint32>, m: map<Uint32, V>, tag: Uint32)
    requires tag in m && forall i :: 0 <= i < |tags| ==> tags[i] in m
    ensures AddAll(MapEntries(tags + [tag], m), IntLess) == Add(AddAll(MapEntries(tags, m), IntLess), IntLess, tag, m[tag])
  {
    hide AddAll, Add;
    assert MapEntries(tags + [tag], m) == MapEntries(tags, m) + [Entry(tag as int, m[tag])];
    AddAllStep(MapEntries(tags, m), IntLess, Entry(tag as int, m[tag]));
  }

  lemma MapEntriesFind<V(!new)>(tags: seq<Uint32>, m: map<Uint32, V>, k: nat)
    requires k < |tags| && forall i :: 0 <= i < |tags| ==> tags[i] in m
    ensures ValueFor(AddAll(MapEntries(tags, m), IntLess), tags[k]) == Some(m[tags[k]])
  {
    var es := MapEntries(tags, m);
    var v := AddAll(es, IntLess);
    AddAllKeeps(es, IntLess);
    AddAllHasKeys(es, IntLess, tags[k]);
    assert es[k].key == tags[k];
    var i := IndexOfKey(v, tags[k]);
    assert v[i] in es;
  }

  lemma NothingCollected(ops: Ops)
    ensures AddAll(MapEntries(ops.tags[..0], ops.names), IntLess) == [] && AddAll(MapEntries(ops.tags[..0], ops.kinds), IntLess) == []
    ensures AddAll(MapEntries(ops.tags[..0], ops.sections), IntLess) == [] && AddAll(StringEntries([]), StrLess) == []
  {
  }

  lemma NothingIndexed()
    ensures forall es: seq<Entry<int, int>> :: AddAll(es[..0], IntLess) == []
    ensures forall ts: seq<Triple> :: BuildReverse(ts[..0]) == []
  {
  }

  lemma IndexStep(ops: Ops, i: nat)
    requires Answers(ops) && ops.count >= 0 && AllAcceptable(ops) && i < |ops.tags|
    ensures var es, ts := SectionEntries(OpsRecords(ops)), OpsTriples(ops);
            var tag := ops.tags[i];
            var sections := AddAll(StringEntries(SectionNames(ops)), StrLess);
            && |es| == |ts| == |ops.tags| && Acceptable(ops, tag)
            && AddAll(es[..i + 1], IntLess) == Add(AddAll(es[..i], IntLess), IntLess, tag, IndexOfKey(sections, ops.sections[tag]))
            && BuildReverse(ts[..i + 1]) == AddReverse(BuildReverse(ts[..i]), ops.sections[tag], ops.names[tag], tag)
  {
    hide AddReverse, AddAll, Add, StringEntries, SectionNames;
    var es, ts := SectionEntries(OpsRecords(ops)), OpsTriples(ops);
    var tag := ops.tags[i];
    assert Acceptable(ops, tag);
    SectionIsNamed(ops, i);
    assert es[..i + 1] == es[..i] + [es[i]];
    AddAllStep(es[..i], IntLess, es[i]);
    assert ts[..i + 1][..i] == ts[..i];
  }

  class VendorTagDescriptor {
    var tagCount: int
    var names: Names
    var sectionOf: Ints
    var types: Ints
    var sections: Sections
    var reverse: Reverse

    ghost function Value(): Descriptor
      reads this
    {
      Descriptor(tagCount, names, sectionOf, types, sections, reverse)
    }

    constructor (count: int)
      ensures Value() == Descriptor(count, [], [], [], [], [])
    {
      tagCount, names, sectionOf, types, sections, reverse := count, [], [], [], [], [];
    }

    /** Lines 235-246. */
    method BuildIndex(tags: seq<int>) returns (status: Status)
      requires reverse == []
      modifies `reverse
      ensures var built := WithReverse(old(Value()), tags);
              if built.Good? then status == OK && Value() == built.value else status == built.status && status != OK
    {
      ghost var d := Value();
      assert TriplesFor(d, tags[..0]) == [];
      for i := 0 to |tags|
        invariant InBounds(d, tags[..i]) && reverse == BuildReverse(TriplesFor(d, tags[..i]))
      {
        var tag := tags[i];
        var s, n := IndexOfKey(sectionOf, tag), IndexOfKey(names, tag);
        if s < 0 || n < 0 || sectionOf[s].value < 0 || sectionOf[s].value >= |sections| {
          return OUT_OF_BOUNDS;
        }
        assert InBounds(d, [tag]);
        ReverseStep(d, tags, i);
        var section := sections[sectionOf[s].value].key;
        var inner := ValueFor(reverse, section);
        reverse := Add(reverse, StrLess, section, Add(if inner.Some? then inner.value else [], StrLess, names[n].value, tag));
      }
      assert tags[..|tags|] == tags;
      status := OK;
    }

    /** Lines 167-195, the reads of one round. */
    static method ReadRecord(parcel: Parcel) returns (r: Result<Record>)
      requires parcel.Valid()
      modifies parcel`pos
      ensures parcel.Valid() && r == ReadTag(old(parcel.Remaining()))
      ensures r.Bad? ==> r.status != OK
      ensures r.Good? ==> parcel.Remaining() == Rest(old(parcel.Remaining()), 4)
    {
      var tag := parcel.ReadInt32();
      if tag.None? { return Bad(NOT_ENOUGH_DATA); }
      if tag.value < VENDOR_TAG_BOUNDARY { return Bad(BAD_VALUE); }
      var kind := parcel.ReadInt32();
      if kind.None? { return Bad(NOT_ENOUGH_DATA); }
      if Signed(kind.value) < 0 || Signed(kind.value) >= NUM_TYPES { return Bad(BAD_VALUE); }
      var name := parcel.ReadString8();
      if name == "" { return Bad(NOT_ENOUGH_DATA); }
      var section := parcel.ReadInt32();
      if section.None? { return Bad(NOT_ENOUGH_DATA); }
      r := Good(Record(tag.value, Signed(kind.value), name, section.value));
    }

    /** Lines 84-113. */
    method CollectTags(ops: Ops) returns (status: Status, tagToSection: Names)
      requires Answers(ops) && Value() == Descriptor(ops.count, [], [], [], [], []) && ops.count >= 0
      modifies `names, `types, `sections
      ensures if AllAcceptable(ops) then
                && status == OK && reverse == [] && sectionOf == []
                && names == AddAll(NameEntries(OpsRecords(ops)), IntLess) && types == AddAll(TypeEntries(OpsRecords(ops)), IntLess)
                && sections == AddAll(StringEntries(SectionNames(ops)), StrLess)
                && tagToSection == AddAll(MapEntries(ops.tags, ops.sections), IntLess)
              else status == BAD_VALUE
    {
      hide AddAll, Add, StringEntries, OpsRecords, NameEntries, TypeEntries;
      tagToSection := [];
      ghost var ss: seq<string> := [];
      NothingCollected(ops);
      for i := 0 to |ops.tags|
        invariant forall k :: 0 <= k < i ==> Acceptable(ops, ops.tags[k])
        invariant names == AddAll(MapEntries(ops.tags[..i], ops.names), IntLess)
        invariant types == AddAll(MapEntries(ops.tags[..i], ops.kinds), IntLess)
        invariant tagToSection == AddAll(MapEntries(ops.tags[..i], ops.sections), IntLess)
        invariant |ss| == i && forall k :: 0 <= k < i ==> ss[k] == ops.sections[ops.tags[k]]
        invariant sections == AddAll(StringEntries(ss), StrLess)
      {
        var tag := ops.tags[i];
        if tag < VENDOR_TAG_BOUNDARY || tag !in ops.names || tag !in ops.sections || tag !in ops.kinds
           || ops.kinds[tag] < 0 || ops.kinds[tag] >= NUM_TYPES {
          assert !Acceptable(ops, ops.tags[i]);
          return BAD_VALUE, tagToSection;
        }
        MapEntriesStep(ops.tags[..i], ops.names, tag);
        MapEntriesStep(ops.tags[..i], ops.kinds, tag);
        MapEntriesStep(ops.tags[..i], ops.sections, tag);
        StringStep(ss, ops.sections[tag]);
        assert ops.tags[..i + 1] == ops.tags[..i] + [tag];
        names := Add(names, IntLess, tag, ops.names[tag]);
        sections := Add(sections, StrLess, ops.sections[tag], ());
        tagToSection := Add(tagToSection, IntLess, tag, ops.sections[tag]);
        types := Add(types, IntLess, tag, ops.kinds[tag]);
        ss := ss + [ops.sections[tag]];
      }
      assert ops.tags[..|ops.tags|] == ops.tags;
      OpsRecordEntries(ops);
      assert ss == SectionNames(ops);
      status := OK;
    }

    /** Lines 117-133. */
    method IndexTags(ops: Ops, tagToSection: Names)
      requires Answers(ops) && ops.count >= 0 && AllAcceptable(ops) && reverse == [] && sectionOf == []
      requires names == AddAll(NameEntries(OpsRecords(ops)), IntLess)
      requires sections == AddAll(StringEntries(SectionNames(ops)), StrLess)
      requires tagToSection == AddAll(MapEntries(ops.tags, ops.sections), IntLess)
      modifies `sectionOf, `reverse
      ensures sectionOf == AddAll(SectionEntries(OpsRecords(ops)), IntLess) && reverse == BuildReverse(OpsTriples(ops))
    {
      hide AddAll, Add, OpsTriples, SectionNames, StringEntries, NameEntries, MapEntries, BuildReverse;
      ghost var es, ts := SectionEntries(OpsRecords(ops)), OpsTriples(ops);
      NothingIndexed();
      OpsRecordEntries(ops);
      for i := 0 to |ops.tags|
        invariant |es| == |ts| == |ops.tags|
        invariant sectionOf == AddAll(es[..i], IntLess) && reverse == BuildReverse(ts[..i])
      {
        var tag := ops.tags[i];
        MapEntriesFind(ops.tags, ops.sections, i);
        MapEntriesFind(ops.tags, ops.names, i);
        SectionIsNamed(ops, i);
        var section := tagToSection[IndexOfKey(tagToSection, tag)].value;
        var name := names[IndexOfKey(names, tag)].value;
        var index := IndexOfKey(sections, section);
        IndexStep(ops, i);
        sectionOf := Add(sectionOf, IntLess, tag, index);
        var inner := ValueFor(reverse, section);
        reverse := Add(reverse, StrLess, section, Add(if inner.Some? then inner.value else [], StrLess, name, tag));
      }
      assert es[..|es|] == es && ts[..|ts|] == ts;
    }

    /** createDescriptorFromOps; the operations may be NULL. */
    static method CreateFromOps(vOps: Option<Ops>) returns (status: Status, descriptor: VendorTagDescriptor?)
      requires vOps.Some? ==> Answers(vOps.value)
      ensures vOps.None? ==> status == BAD_VALUE && descriptor == null
      ensures vOps.Some? ==>
                var made := FromOps(vOps.value);
                if made.Good? then status == OK && descriptor != null && fresh(descriptor) && descriptor.Value() == made.value
                else status == made.status && descriptor == null
    {
      if vOps.None? { return BAD_VALUE, null; }
      status, descriptor := CreateFromAnswers(vOps.value);
    }

    /** The same once there are operations. */
    static method CreateFromAnswers(ops: Ops) returns (status: Status, descriptor: VendorTagDescriptor?)
      requires Answers(ops)
      ensures var made := FromOps(ops);
              if made.Good? then status == OK && descriptor != null && fresh(descriptor) && descriptor.Value() == made.value
              else status == made.status && descriptor == null
    {
      hide AddAll, OpsRecords, SectionNames, StringEntries, NameEntries, SectionEntries, TypeEntries, MapEntries, OpsTriples, BuildReverse, WithReverse;
      descriptor := null;
      if ops.count < 0 { return BAD_VALUE, null; }
      var d := new VendorTagDescriptor(ops.count);
      var tagToSection;
      status, tagToSection := d.CollectTags(ops);
      if status == OK {
        d.IndexTags(ops, tagToSection);
        OpsTriplesAreIndexed(ops);
        descriptor := d;
      }
    }

    /** Lines 222-230. */
    method ReadNames(parcel: Parcel, count: nat) returns (status: Status)
      requires parcel.Valid() && sections == []
      modifies `sections, parcel`pos
      ensures var read := ReadStrings(old(parcel.Remaining()), count);
              if read.Good? then status == OK && sections == AddAll(StringEntries(read.value), StrLess)
              else status == read.status && status != OK
    {
      hide AddAll, Add, StringEntries, Prepend, Cons, Rest;
      ghost var all := parcel.Remaining();
      ghost var ss: seq<string> := [];
      PrependEnds(ss, ReadStrings(all, count));
      NothingRead(all);
      for i := 0 to count
        invariant parcel.Valid()
        invariant ReadStrings(all, count) == Prepend(ss, ReadStrings(parcel.Remaining(), count - i))
        invariant sections == AddAll(StringEntries(ss), StrLess)
      {
        var name := parcel.ReadString8();
        if name == "" {
          PrependBad<string>(ss, NOT_ENOUGH_DATA);
          return NOT_ENOUGH_DATA;
        }
        PrependStep(ss, name, ReadStrings(parcel.Remaining(), count - i - 1));
        StringStep(ss, name);
        sections := Add(sections, StrLess, name, ());
        ss := ss + [name];
      }
      NothingRead(parcel.Remaining());
      PrependEnds(ss, Good([]));
      status := OK;
    }

    /** Lines 211-221. */
    method ReadSectionNames(parcel: Parcel, max: Uint32) returns (status: Status)
      requires parcel.Valid() && sections == []
      modifies `sections, parcel`pos
      ensures var read := ReadSections(old(parcel.Remaining()), max);
              if read.Good? then status == OK && sections == AddAll(StringEntries(read.value), StrLess)
              else status == read.status && status != OK
    {
      hide AddAll, StringEntries, ReadStrings;
      var count := parcel.ReadInt32();
      if count.None? { return NOT_ENOUGH_DATA; }
      if count.value < (max + 1) % TWO_32 { return BAD_VALUE; }
      if count.value == 0 { return FATAL; }
      status := ReadNames(parcel, count.value);
    }

    /** Lines 166-203: the tags, with the greatest section index among them. */
    method ReadTagsOf(parcel: Parcel, count: nat) returns (status: Status, max: Uint32, allTags: seq<int>)
      requires parcel.Valid() && Value() == Descriptor(count, [], [], [], [], [])
      modifies `names, `sectionOf, `types, parcel`pos
      ensures parcel.Valid()
      ensures var read := ReadTags(old(parcel.Remaining()), count);
              if read.Bad? then status == read.status && status != OK
              else && status == OK && Value() == Assembled(count, read.value, []) && max == MaxSection(read.value) && allTags == Tags(read.value)
                   && parcel.Remaining() == Rest(old(parcel.Remaining()), 4 * count)
    {
      hide ReadTag, ReadTags, AddAll, Add, NameEntries, SectionEntries, TypeEntries, Tags, MaxSection, Prepend, Cons, Rest;
      ghost var all := parcel.Remaining();
      ghost var rs: seq<Record> := [];
      max, allTags := 0, [];
      PrependEnds(rs, ReadTags(all, count));
      NothingRead(all);
      for i := 0 to count
        invariant parcel.Valid() && parcel.Remaining() == Rest(all, 4 * i)
        invariant ReadTags(all, count) == Prepend(rs, ReadTags(parcel.Remaining(), count - i))
        invariant names == AddAll(NameEntries(rs), IntLess) && sectionOf == AddAll(SectionEntries(rs), IntLess)
        invariant types == AddAll(TypeEntries(rs), IntLess)
        invariant max == MaxSection(rs) && allTags == Tags(rs)
      {
        ghost var before := parcel.Remaining();
        ReadTagsStep(rs, before, count - i);
        var read := ReadRecord(parcel);
        if read.Bad? {
          return read.status, max, allTags;
        }
        var r := read.value;
        RestStep(all, i);
        RecordStep(rs, r);
        max := if max >= r.section then max else r.section;
        allTags := allTags + [r.tag];
        names := Add(names, IntLess, r.tag, r.name);
        sectionOf := Add(sectionOf, IntLess, r.tag, r.section);
        types := Add(types, IntLess, r.tag, r.kind);
        rs := rs + [r];
      }
      NothingRead(parcel.Remaining());
      PrependEnds(rs, Good([]));
      status := OK;
    }

    static method CreateFromParcel(parcel: Parcel?) returns (status: Status, descriptor: VendorTagDescriptor?)
      requires parcel != null ==> parcel.Valid()
      modifies parcel
      ensures parcel != null ==> parcel.cells == old(parcel.cells)
      ensures parcel == null ==> status == BAD_VALUE && descriptor == null
      ensures parcel != null ==>
                var read := FromParcel(old(parcel.Remaining()));
                if read.Good? then status == OK && descriptor != null && fresh(descriptor) && descriptor.Value() == read.value
                else status == read.status && descriptor == null
    {
      if parcel == null { return BAD_VALUE, null; }
      status, descriptor := CreateFromCells(parcel);
    }

    /** The same once there is a parcel. */
    static method CreateFromCells(parcel: Parcel) returns (status: Status, descriptor: VendorTagDescriptor?)
      requires parcel.Valid()
      modifies parcel`pos
      ensures var read := FromParcel(old(parcel.Remaining()));
              if read.Good? then status == OK && descriptor != null && fresh(descriptor) && descriptor.Value() == read.value
              else status == read.status && descriptor == null
    {
      hide ReadTags, ReadSections, AddAll, NameEntries, SectionEntries, TypeEntries, Tags, MaxSection, InBounds, TriplesFor, BuildReverse;
      descriptor := null;
      ghost var p := parcel.Remaining();
      var bits := parcel.ReadInt32();
      if bits.None? { return NOT_ENOUGH_DATA, null; }
      var count := Signed(bits.value);
      if count < 0 { return BAD_VALUE, null; }
      var d := new VendorTagDescriptor(count);
      var max, allTags;
      status, max, allTags := d.ReadTagsOf(parcel, count);
      if status != OK { return status, null; }
      assert parcel.Remaining() == Rest(p, 1 + 4 * count);
      ReadTagsAreProper(Rest(p, 1), count);
      if count > 0 {
        status := d.ReadSectionNames(parcel, max);
        if status != OK { return status, null; }
      } else {
        NothingRead(Rest(p, 1));
      }
      status := d.BuildIndex(allTags);
      if status == OK {
        descriptor := d;
      }
    }

    method WriteToParcel(parcel: Parcel?) returns (status: Status)
      requires WellFormed(Value()) && (parcel != null ==> parcel.Valid() && parcel.pos == |parcel.cells|)
      modifies parcel
      ensures parcel == null ==> status == BAD_VALUE
      ensures parcel != null ==>
                var w := WriteAttempt(Value(), parcel.fails, old(parcel.writes));
                && parcel.cells == old(parcel.cells) + w.cells && parcel.writes == old(parcel.writes) + w.tried
                && status == w.status
    {
      hide WriteAll, WriteTags, WriteSections, Records, WellFormed, U32;
      if parcel == null { return BAD_VALUE; }
      HeadIsWritten(Value(), parcel.fails, parcel.writes);
      status := parcel.WriteInt32(U32(tagCount));
      if status != OK { return status; }
      status := WriteTagList(parcel);
      CountsFit(Value());
      if |sections| > 0 {
        status := WriteSectionNames(parcel);
      }
    }

    /** Lines 302-314. */
    method WriteTagList(parcel: Parcel) returns (status: Status)
      requires WellFormed(Value()) && parcel.Valid() && parcel.pos == |parcel.cells|
      modifies parcel
      ensures parcel.Valid() && parcel.pos == |parcel.cells|
      ensures var w := WriteAll(WriteTags(Records(Value())), parcel.fails, old(parcel.writes));
              && parcel.cells == old(parcel.cells) + w.cells && parcel.writes == old(parcel.writes) + w.tried
              && status == w.status
    {
      hide WriteAll, WriteTags, WriteTag, Records, WellFormed, U32;
      ghost var rs, was, k := Records(Value()), parcel.cells, parcel.writes;
      status := OK;
      WriteAllNothing(parcel.fails, k);
      NoTags();
      assert rs[..0] == [];
      for i := 0 to |names|
        invariant parcel.Valid() && parcel.pos == |parcel.cells| && status == OK
        invariant WriteAll(WriteTags(rs[..i]), parcel.fails, k).status == OK
        invariant parcel.cells == was + WriteTags(rs[..i]) && parcel.writes == k + 4 * i
      {
        TagWritten(rs, i, parcel.fails, k);
        WriteTagsSplit(rs, i);
        status := WriteOneTag(parcel, i);
        if status != OK { return status; }
      }
      assert rs[..|names|] == rs;
    }

    /** Lines 306-313. */
    method WriteOneTag(parcel: Parcel, i: nat) returns (status: Status)
      requires WellFormed(Value()) && parcel.Valid() && parcel.pos == |parcel.cells| && i < |names|
      modifies parcel
      ensures parcel.Valid() && parcel.pos == |parcel.cells|
      ensures var w := WriteAll(WriteTag(Records(Value())[i]), parcel.fails, old(parcel.writes));
              && parcel.cells == old(parcel.cells) + w.cells && parcel.writes == old(parcel.writes) + w.tried
              && status == w.status
    {
      var tag, name := names[i].key, names[i].value;
      ValuesOf(i);
      var section := sectionOf[IndexOfKey(sectionOf, tag)].value;
      var kind := types[IndexOfKey(types, tag)].value;
      CountsFit(Value());
      var r := Record(tag, kind, name, section);
      assert r == Records(Value())[i];
      status := WriteFields(parcel, r);
    }

    /** Lines 310-313. */
    static method WriteFields(parcel: Parcel, r: Record) returns (status: Status)
      requires parcel.Valid() && parcel.pos == |parcel.cells|
      modifies parcel
      ensures parcel.Valid() && parcel.pos == |parcel.cells|
      ensures var w := WriteAll(WriteTag(r), parcel.fails, old(parcel.writes));
              && parcel.cells == old(parcel.cells) + w.cells && parcel.writes == old(parcel.writes) + w.tried
              && status == w.status
    {
      hide WriteAll, U32;
      FourWrites(Int(r.tag), Int(U32(r.kind)), Str(r.name), Int(r.section), parcel.fails, parcel.writes);
      status := parcel.WriteInt32(r.tag);
      if status != OK { return status; }
      status := parcel.WriteInt32(U32(r.kind));
      if status != OK { return status; }
      status := parcel.WriteString8(r.name);
      if status != OK { return status; }
      status := parcel.WriteInt32(r.section);
    }

    lemma ValuesOf(i: nat)
      requires WellFormed(Value()) && i < |names|
      ensures |sectionOf| == |types| == |names|
      ensures IndexOfKey(sectionOf, names[i].key) == i && IndexOfKey(types, names[i].key) == i
    {
      IndexOfSorted(names, i);
      SameKeysFind(names, sectionOf, names[i].key);
      SameKeysFind(names, types, names[i].key);
    }

    /** Lines 318-321. */
    method WriteSectionNames(parcel: Parcel) returns (status: Status)
      requires 0 < |sections| < TWO_32 && parcel.Valid() && parcel.pos == |parcel.cells|
      modifies parcel
      ensures parcel.Valid() && parcel.pos == |parcel.cells|
      ensures var w := WriteAll(WriteSections(sections), parcel.fails, old(parcel.writes));
              && parcel.cells == old(parcel.cells) + w.cells && parcel.writes == old(parcel.writes) + w.tried
              && status == w.status
    {
      hide WriteAll, U32, WriteStrings;
      ghost var k, all := parcel.writes, WriteStrings(sections);
      WriteAllFirst(Int(U32(|sections|)), all, parcel.fails, k);
      status := parcel.WriteInt32(U32(|sections|));
      if status != OK { return status; }
      status := WriteNames(parcel);
    }

    /** Lines 319-321. */
    method WriteNames(parcel: Parcel) returns (status: Status)
      requires parcel.Valid() && parcel.pos == |parcel.cells|
      modifies parcel
      ensures parcel.Valid() && parcel.pos == |parcel.cells|
      ensures var w := WriteAll(WriteStrings(sections), parcel.fails, old(parcel.writes));
              && parcel.cells == old(parcel.cells) + w.cells && parcel.writes == old(parcel.writes) + w.tried
              && status == w.status
    {
      hide WriteAll, WriteStrings;
      ghost var k, was, all := parcel.writes, parcel.cells, WriteStrings(sections);
      SameLength(sections);
      WriteAllNothing(parcel.fails, k);
      assert all[..0] == [];
      status := OK;
      for i := 0 to |sections|
        invariant parcel.Valid() && parcel.pos == |parcel.cells| && status == OK
        invariant parcel.cells == was + all[..i] && parcel.writes == k + i
        invariant WriteAll(all[..i], parcel.fails, k).status == OK
      {
        CellWritten(all, i, parcel.fails, k);
        StringAt(sections, i);
        assert all[..i + 1] == all[..i] + [all[i]];
        status := parcel.WriteString8(sections[i].key);
        if status != OK { return status; }
      }
      assert all[..|sections|] == all;
    }

    /** Lines 331-348. */
    method LookupTag(name: string, section: string) returns (status: Status, tag: int)
      ensures var found := Find(reverse, section, name);
              if found.Some? then status == OK && tag == found.value else status == BAD_VALUE
    {
      tag := 0;
      var index := IndexOfKey(reverse, section);
      if index < 0 { return BAD_VALUE, tag; }
      var nameIndex := IndexOfKey(reverse[index].value, name);
      if nameIndex < 0 { return BAD_VALUE, tag; }
      tag := reverse[index].value[nameIndex].value;
      status := OK;
    }
  }
}
