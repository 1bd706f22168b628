/** The vendor tag descriptor of libshims/camera/VendorTagDescriptor.cpp: its indexes, its
    parcel form, and what lookups in it answer. */
module VendorTags {
  import opened Wrappers
  import opened KeyedVectors

  /** From system/camera_metadata.h, which is not part of this model. */
  const VENDOR_TAG_BOUNDARY := 0x8000_0000
  const NUM_TYPES := 6

  const INT32_MAX := 0x7fff_ffff
  const TWO_32 := 0x1_0000_0000

  type Names = seq<Entry<int, string>>
  type Ints = seq<Entry<int, int>>
  type Sections = seq<Entry<string, ()>>
  type Reverse = seq<Entry<string, seq<Entry<string, int>>>>

  datatype Descriptor = Descriptor(tagCount: int, names: Names, sectionOf: Ints, types: Ints,
                                   sections: Sections, reverse: Reverse)

  // ----- The reverse index -----

  /** Lines 127-132 and 240-245: adds a name to its section's index, made on demand. */
  function AddReverse(rev: Reverse, section: string, name: string, tag: int): Reverse {
    var inner := ValueFor(rev, section);
    Add(rev, StrLess, section, Add(if inner.Some? then inner.value else [], StrLess, name, tag))
  }

  /** lookupTag. */
  function Find(rev: Reverse, section: string, name: string): Option<int> {
    var inner := ValueFor(rev, section);
    if inner.None? then None else ValueFor(inner.value, name)
  }

  ghost predicate ReverseOk(rev: Reverse) {
    Sorted(rev, StrLess) && forall e :: e in rev ==> e.value != [] && Sorted(e.value, StrLess)
  }

  lemma InnerIsSorted(rev: Reverse, section: string)
    requires ReverseOk(rev)
    ensures var inner := ValueFor(rev, section);
            inner.Some? ==> inner.value != [] && Sorted(inner.value, StrLess)
  {
    var i := IndexOfKey(rev, section);
    assert i >= 0 ==> rev[i] in rev;
  }

  lemma AddReverseFinds(rev: Reverse, section: string, name: string, tag: int, s: string, n: string)
    requires ReverseOk(rev)
    ensures ReverseOk(AddReverse(rev, section, name, tag))
    ensures Find(AddReverse(rev, section, name, tag), s, n)
         == if s == section && n == name then Some(tag) else Find(rev, s, n)
  {
    hide StrLess, IndexOfKey, Add;
    StrLessIsOrder();
    InnerIsSorted(rev, section);
    var found := ValueFor(rev, section);
    var inner := if found.Some? then found.value else [];
    var added := Add(inner, StrLess, name, tag);
    AddKeeps(inner, StrLess, name, tag);
    AddThenFind(inner, StrLess, name, tag, n);
    AddKeeps(rev, StrLess, section, added);
    AddThenFind(rev, StrLess, section, added, s);
    assert Entry(name, tag) in added;
  }

  /** Sorted vectors that answer every lookup alike are equal. */
  lemma {:induction false} SortedEqual<K(!new), V(!new)>(v: seq<Entry<K, V>>, w: seq<Entry<K, V>>, less: (K, K) -> bool)
    requires StrictTotalOrder(less) && Sorted(v, less) && Sorted(w, less)
    requires forall e :: e in v <==> e in w
    ensures v == w
  {
    assert v == [] <==> w == [] by {
      assert v != [] ==> v[0] in v;
      assert w != [] ==> w[0] in w;
    }
    if v != [] {
      FrontIsSorted(v, less);
      FrontIsSorted(w, less);
      var a, b := v[|v| - 1], w[|w| - 1];
      var front, other := v[..|v| - 1], w[..|w| - 1];
      assert a in w && b in v;
      assert a == b && !less(a.key, a.key);
      forall e | e in front
        ensures e in other
      {
        assert e in v && e != a;
      }
      forall e | e in other
        ensures e in front
      {
        assert e in w && e != a;
      }
      SortedEqual(front, other, less);
      assert v == front + [a] && w == other + [b];
    }
  }

  lemma SameInner(v: seq<Entry<string, int>>, w: seq<Entry<string, int>>)
    requires Sorted(v, StrLess) && Sorted(w, StrLess)
    requires forall n :: ValueFor(v, n) == ValueFor(w, n)
    ensures v == w
  {
    StrLessIsOrder();
    forall e: Entry<string, int>
      ensures e in v <==> e in w
    {
      ValueForIn(v, StrLess, e.key, e.value);
      ValueForIn(w, StrLess, e.key, e.value);
      assert e == Entry(e.key, e.value);
    }
    SortedEqual(v, w, StrLess);
  }

  lemma SectionIn(a: Reverse, b: Reverse, section: string)
    requires ReverseOk(a) && ReverseOk(b)
    requires forall s, n :: Find(a, s, n) == Find(b, s, n)
    requires ValueFor(a, section).Some?
    ensures ValueFor(b, section) == ValueFor(a, section)
  {
    StrLessIsOrder();
    InnerIsSorted(a, section);
    InnerIsSorted(b, section);
    var inner := ValueFor(a, section).value;
    var first := inner[0];
    ValueForIn(inner, StrLess, first.key, first.value);
    assert first == Entry(first.key, first.value);
    assert Find(a, section, first.key) == Some(first.value);
    assert Find(b, section, first.key) == Some(first.value);
    forall n
      ensures ValueFor(ValueFor(b, section).value, n) == ValueFor(inner, n)
    {
      assert Find(a, section, n) == Find(b, section, n);
    }
    SameInner(inner, ValueFor(b, section).value);
  }

  /** Two reverse indexes that find the same are the same. */
  lemma SameReverse(a: Reverse, b: Reverse)
    requires ReverseOk(a) && ReverseOk(b)
    requires forall s, n :: Find(a, s, n) == Find(b, s, n)
    ensures a == b
  {
    StrLessIsOrder();
    forall e: Entry<string, seq<Entry<string, int>>>
      ensures e in a <==> e in b
    {
      ValueForIn(a, StrLess, e.key, e.value);
      ValueForIn(b, StrLess, e.key, e.value);
      assert e == Entry(e.key, e.value);
      if e in a {
        SectionIn(a, b, e.key);
      } else if e in b {
        SectionIn(b, a, e.key);
      }
    }
    SortedEqual(a, b, StrLess);
  }

  // ----- Building the reverse index -----

  /** A tag with the names it is indexed by. */
  datatype Triple = Triple(section: string, name: string, tag: int)

  function BuildReverse(ts: seq<Triple>): Reverse {
    if ts == [] then []
    else
      var t := ts[|ts| - 1];
      AddReverse(BuildReverse(ts[..|ts| - 1]), t.section, t.name, t.tag)
  }

  lemma NothingIsFound(s: string, n: string)
    ensures ReverseOk([]) && Find([], s, n) == None
  {
  }

  /** Every answer of the index built from ts is one of ts, and every pair of ts is answered; when ts is
      in the order of the tags the answer is the greatest tag of the pair. */
  lemma {:induction false} BuiltReverseFinds(ts: seq<Triple>, s: string, n: string)
    ensures ReverseOk(BuildReverse(ts))
    ensures var found := Find(BuildReverse(ts), s, n);
            && (found.Some? ==> Triple(s, n, found.value) in ts)
            && (forall t :: Triple(s, n, t) in ts ==> found.Some? && (InTagOrder(ts) ==> t <= found.value))
  {
    hide Find, AddReverse, ReverseOk;
    if ts == [] {
      NothingIsFound(s, n);
    } else {
      var front, last := ts[..|ts| - 1], ts[|ts| - 1];
      assert ts == front + [last];
      BuiltReverseFinds(front, s, n);
      AddReverseFinds(BuildReverse(front), last.section, last.name, last.tag, s, n);
      assert InTagOrder(ts) ==> InTagOrder(front);
      forall t | Triple(s, n, t) in ts
        ensures InTagOrder(ts) ==> t <= last.tag
      {
        var i :| 0 <= i < |ts| && ts[i] == Triple(s, n, t);
        assert InTagOrder(ts) && i < |ts| - 1 ==> ts[i].tag < ts[|ts| - 1].tag;
      }
    }
  }

  /** The last tag added with a pair of names is the answer for it. */
  lemma {:induction false} BuiltReverseAnswersLast(ts: seq<Triple>, i: nat)
    requires i < |ts| && forall j :: i < j < |ts| ==> ts[j].section != ts[i].section || ts[j].name != ts[i].name
    ensures Find(BuildReverse(ts), ts[i].section, ts[i].name) == Some(ts[i].tag)
  {
    hide Find, AddReverse, ReverseOk;
    var front, last := ts[..|ts| - 1], ts[|ts| - 1];
    BuiltReverseFinds(front, "", "");
    AddReverseFinds(BuildReverse(front), last.section, last.name, last.tag, ts[i].section, ts[i].name);
    if i < |ts| - 1 {
      assert front[i] == ts[i];
      BuiltReverseAnswersLast(front, i);
    }
  }

  ghost predicate InTagOrder(ts: seq<Triple>) {
    forall i, j :: 0 <= i < j < |ts| ==> ts[i].tag < ts[j].tag
  }

  // ----- Descriptors -----

  /** What createDescriptorFromOps and createFromParcel establish. A tag that was announced twice is
      counted twice but held once. */
  ghost predicate WellFormed(d: Descriptor) {
    && Sorted(d.names, IntLess) && SameKeys(d.names, d.sectionOf) && SameKeys(d.names, d.types)
    && Sorted(d.sections, StrLess) && |d.sections| < TWO_32
    && |d.names| <= d.tagCount <= INT32_MAX
    && (d.names == [] ==> d.tagCount == 0 && d.sections == [])
    && (forall i :: 0 <= i < |d.names| ==> VENDOR_TAG_BOUNDARY <= d.names[i].key < TWO_32)
    && (forall i :: 0 <= i < |d.names| ==> 0 <= d.sectionOf[i].value < |d.sections|)
    && (forall i :: 0 <= i < |d.names| ==> 0 <= d.types[i].value < NUM_TYPES)
  }

  function GetTagName(d: Descriptor, tag: int): Option<string> {
    ValueFor(d.names, tag)
  }

  function GetSectionName(d: Descriptor, tag: int): (name: Option<string>)
    requires WellFormed(d)
  {
    var i := IndexOfKey(d.sectionOf, tag);
    if i < 0 then None else Some(d.sections[d.sectionOf[i].value].key)
  }

  /** The tags with their names, in the order of the tags. */
  function Triples(d: Descriptor): (ts: seq<Triple>)
    requires WellFormed(d)
    ensures InTagOrder(ts)
  {
    seq(|d.names|, i requires 0 <= i < |d.names| =>
      Triple(d.sections[d.sectionOf[i].value].key, d.names[i].value, d.names[i].key))
  }

  lemma TriplesAreNames(d: Descriptor, tag: int, section: string, name: string)
    requires WellFormed(d)
    ensures Triple(section, name, tag) in Triples(d)
       <==> GetTagName(d, tag) == Some(name) && GetSectionName(d, tag) == Some(section)
  {
    var i := IndexOfKey(d.names, tag);
    SameKeysFind(d.names, d.sectionOf, tag);
    if Triple(section, name, tag) in Triples(d) {
      var j :| 0 <= j < |d.names| && Triples(d)[j] == Triple(section, name, tag);
      assert i == j;
    } else if i >= 0 {
      assert Triples(d)[i] in Triples(d);
    }
  }

  /** Every answer of the reverse index is right, and every tag's pair of names is answered. */
  ghost predicate Indexed(d: Descriptor)
    requires WellFormed(d)
  {
    && ReverseOk(d.reverse)
    && (forall s, n :: Find(d.reverse, s, n).Some? ==> Triple(s, n, Find(d.reverse, s, n).value) in Triples(d))
    && (forall t :: t in Triples(d) ==> Find(d.reverse, t.section, t.name).Some?)
  }

  ghost predicate AnswersGreatest(d: Descriptor)
    requires WellFormed(d)
  {
    forall t :: t in Triples(d) ==>
      var found := Find(d.reverse, t.section, t.name);
      found.Some? && t.tag <= found.value
  }

  /** No two tags share both names. */
  ghost predicate UniquePairs(d: Descriptor)
    requires WellFormed(d)
  {
    forall a, b :: a in Triples(d) && b in Triples(d) && a.section == b.section && a.name == b.name ==> a == b
  }

  lemma UniquePairsAnswerGreatest(d: Descriptor)
    requires WellFormed(d) && Indexed(d) && UniquePairs(d)
    ensures AnswersGreatest(d)
  {
    forall t | t in Triples(d)
      ensures var found := Find(d.reverse, t.section, t.name);
              found.Some? && t.tag <= found.value
    {
      assert Triple(t.section, t.name, Find(d.reverse, t.section, t.name).value) in Triples(d);
    }
  }

  /** Looking up a tag's names gives the tag, and gives nothing else. */
  ghost predicate LookupInverts(d: Descriptor)
    requires WellFormed(d)
  {
    forall tag, section, name ::
      (GetTagName(d, tag) == Some(name) && GetSectionName(d, tag) == Some(section)) <==> Find(d.reverse, section, name) == Some(tag)
  }

  lemma LookupInvertsAt(d: Descriptor, tag: int, section: string, name: string)
    requires WellFormed(d) && Indexed(d) && UniquePairs(d)
    ensures GetTagName(d, tag) == Some(name) && GetSectionName(d, tag) == Some(section)
       <==> Find(d.reverse, section, name) == Some(tag)
  {
    hide WellFormed, Triples, GetTagName, GetSectionName, Find, ReverseOk;
    TriplesAreNames(d, tag, section, name);
    var found := Find(d.reverse, section, name);
    assert found.Some? ==> Triple(section, name, found.value) in Triples(d);
    assert Triple(section, name, tag) in Triples(d) ==> found.Some?;
  }

  lemma SharedPairIsLost(d: Descriptor, a: Triple, b: Triple)
    requires WellFormed(d) && a in Triples(d) && b in Triples(d)
    requires a.section == b.section && a.name == b.name && a != b
    ensures !LookupInverts(d)
  {
    hide WellFormed, Triples, GetTagName, GetSectionName, Find;
    TriplesAreNames(d, a.tag, a.section, a.name);
    TriplesAreNames(d, b.tag, b.section, b.name);
    assert a == Triple(a.section, a.name, a.tag) && b == Triple(b.section, b.name, b.tag);
    var section, name, found := a.section, a.name, Find(d.reverse, a.section, a.name);
    assert GetTagName(d, a.tag) == Some(name) && GetSectionName(d, a.tag) == Some(section);
    assert GetTagName(d, b.tag) == Some(name) && GetSectionName(d, b.tag) == Some(section);
    assert found != Some(a.tag) || found != Some(b.tag);
  }

  /** lookupTag undoes the two getters for all tags exactly when no two tags share both names. */
  lemma LookupInvertsExactlyWhen(d: Descriptor)
    requires WellFormed(d) && Indexed(d)
    ensures LookupInverts(d) <==> UniquePairs(d)
  {
    hide WellFormed, Indexed, Triples, GetTagName, GetSectionName, Find;
    if UniquePairs(d) {
      forall tag, section, name
        ensures (GetTagName(d, tag) == Some(name) && GetSectionName(d, tag) == Some(section))
           <==> Find(d.reverse, section, name) == Some(tag)
      {
        LookupInvertsAt(d, tag, section, name);
      }
    } else {
      var a, b :| a in Triples(d) && b in Triples(d) && a.section == b.section && a.name == b.name && a != b;
      SharedPairIsLost(d, a, b);
    }
  }

  /** The index built by adding the tags in any order that covers them. */
  lemma BuiltIsIndexed(d: Descriptor, ts: seq<Triple>)
    requires WellFormed(d) && d.reverse == BuildReverse(ts)
    requires forall t :: t in ts <==> t in Triples(d)
    ensures Indexed(d)
  {
    forall s, n
      ensures Find(d.reverse, s, n).Some? ==> Triple(s, n, Find(d.reverse, s, n).value) in Triples(d)
    {
      BuiltReverseFinds(ts, s, n);
    }
    forall t | t in Triples(d)
      ensures Find(d.reverse, t.section, t.name).Some?
    {
      BuiltReverseFinds(ts, t.section, t.name);
      assert t == Triple(t.section, t.name, t.tag);
    }
    BuiltReverseFinds(ts, "", "");
  }

  lemma GreatestAnswerIsTheBuiltOne(d: Descriptor, s: string, n: string)
    requires WellFormed(d) && Indexed(d) && AnswersGreatest(d)
    ensures Find(d.reverse, s, n) == Find(BuildReverse(Triples(d)), s, n)
  {
    hide WellFormed, Triples, BuildReverse, Find, ReverseOk;
    var ts := Triples(d);
    BuiltReverseFinds(ts, s, n);
    var a, b := Find(d.reverse, s, n), Find(BuildReverse(ts), s, n);
    assert a.Some? ==> Triple(s, n, a.value) in ts;
    assert b.Some? ==> Triple(s, n, b.value) in ts;
  }

  /** An index is the one built in the order of the tags exactly when it answers the greatest tags. */
  lemma BuiltInOrderExactlyWhen(d: Descriptor)
    requires WellFormed(d) && Indexed(d)
    ensures d.reverse == BuildReverse(Triples(d)) <==> AnswersGreatest(d)
  {
    hide WellFormed, Triples, BuildReverse, Find, ReverseOk;
    var ts := Triples(d);
    if d.reverse == BuildReverse(ts) {
      forall t | t in ts
        ensures var found := Find(d.reverse, t.section, t.name);
                found.Some? && t.tag <= found.value
      {
        BuiltReverseFinds(ts, t.section, t.name);
        assert t == Triple(t.section, t.name, t.tag);
      }
    } else if AnswersGreatest(d) {
      forall s, n
        ensures Find(d.reverse, s, n) == Find(BuildReverse(ts), s, n)
      {
        GreatestAnswerIsTheBuiltOne(d, s, n);
      }
      BuiltReverseFinds(ts, "", "");
      SameReverse(d.reverse, BuildReverse(ts));
    }
  }
}
