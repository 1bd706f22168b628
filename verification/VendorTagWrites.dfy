/** Writing a descriptor to a parcel when writes may fail (VendorTagDescriptor.cpp:291-325). */
module VendorTagWrites {
  import opened VendorTags
  import opened VendorTagParcels

  /** Which write to a parcel fails, counted from the first. */
  type Failing = nat -> bool

  /** The cells that got written, the number of writes that were tried, and how the last one ended. */
  datatype Written = Written(cells: Cells, tried: nat, status: Status)

  /** Writes the cells one by one up to the first failure, from write number k on. */
  function WriteAll(cells: Cells, fails: Failing, k: nat): (w: Written)
    ensures w.status == OK || w.status == NO_MEMORY
    ensures w.status == OK <==> w.cells == cells
    ensures w.status == OK ==> w.tried == |cells|
  {
    if cells == [] then Written([], 0, OK)
    else if fails(k) then Written([], 1, NO_MEMORY)
    else
      var w := WriteAll(cells[1..], fails, k + 1);
      assert cells == [cells[0]] + cells[1..];
      Written([cells[0]] + w.cells, 1 + w.tried, w.status)
  }

  lemma WriteAllFirst(cell: Cell, rest: Cells, fails: Failing, k: nat)
    ensures WriteAll([cell] + rest, fails, k) ==
            if fails(k) then Written([], 1, NO_MEMORY)
            else var w := WriteAll(rest, fails, k + 1); Written([cell] + w.cells, 1 + w.tried, w.status)
  {
    assert ([cell] + rest)[1..] == rest;
  }

  lemma WriteAllNothing(fails: Failing, k: nat)
    ensures WriteAll([], fails, k) == Written([], 0, OK)
  {
  }

  lemma {:induction false} WriteAllAppend(a: Cells, b: Cells, fails: Failing, k: nat)
    ensures var w := WriteAll(a, fails, k);
            WriteAll(a + b, fails, k) ==
            if w.status != OK then w
            else var v := WriteAll(b, fails, k + |a|); Written(a + v.cells, |a| + v.tried, v.status)
  {
    hide WriteAll;
    var v := WriteAll(b, fails, k + |a|);
    if a == [] {
      WriteAllNothing(fails, k);
      assert a + b == b && a + v.cells == v.cells;
    } else {
      WriteAllAppend(a[1..], b, fails, k + 1);
      WriteAllFirst(a[0], a[1..], fails, k);
      WriteAllFirst(a[0], a[1..] + b, fails, k);
      assert a == [a[0]] + a[1..] && a + b == [a[0]] + (a[1..] + b);
      assert [a[0]] + (a[1..] + v.cells) == a + v.cells;
    }
  }

  /** writeToParcel: the count; the tags up to a failure; and then the sections, if there are any, whose
      own status replaces that of the tags. */
  function WriteAttempt(d: Descriptor, fails: Failing, k: nat): Written
    requires WellFormed(d)
  {
    var head := WriteAll([Int(U32(d.tagCount))], fails, k);
    if head.status != OK then head
    else
      var tags := WriteAll(WriteTags(Records(d)), fails, k + 1);
      if d.sections == [] then Written(head.cells + tags.cells, 1 + tags.tried, tags.status)
      else
        var sections := WriteAll(WriteSections(d.sections), fails, k + 1 + tags.tried);
        Written(head.cells + tags.cells + sections.cells, 1 + tags.tried + sections.tried, sections.status)
  }

  /** Did a write of the tags fail although everything else was written? */
  predicate TagsFail(d: Descriptor, fails: Failing, k: nat)
    requires WellFormed(d)
  {
    var tags := WriteAll(WriteTags(Records(d)), fails, k + 1);
    && !fails(k) && tags.status != OK && d.sections != []
    && WriteAll(WriteSections(d.sections), fails, k + 1 + tags.tried).status == OK
  }

  /** OK is returned exactly when the whole parcel was written, or when a write of the tags failed and
      none after it did: that failure is forgotten, and the parcel is short. */
  lemma OkExactlyWhen(d: Descriptor, fails: Failing, k: nat)
    requires WellFormed(d)
    ensures var w := WriteAttempt(d, fails, k);
            && (w.status == OK <==> w.cells == WriteParcel(d) || TagsFail(d, fails, k))
            && (TagsFail(d, fails, k) ==> |w.cells| < |WriteParcel(d)|)
  {
    hide WriteTags, WriteSections, Records, WellFormed, WriteAll;
    HeadIsWritten(d, fails, k);
    if !fails(k) {
      var all := WriteTags(Records(d));
      var tags := WriteAll(all, fails, k + 1);
      ShorterWhenFailed(all, fails, k + 1);
      ShorterWhenFailed(WriteSections(d.sections), fails, k + 1 + tags.tried);
      NoSectionsNoCells(d);
    }
  }

  lemma HeadIsWritten(d: Descriptor, fails: Failing, k: nat)
    requires WellFormed(d)
    ensures var head := WriteAll([Int(U32(d.tagCount))], fails, k);
            if fails(k) then head == Written([], 1, NO_MEMORY) else head == Written([Int(U32(d.tagCount))], 1, OK)
  {
    var c := Int(U32(d.tagCount));
    assert [c][1..] == [] && [c] + [] == [c];
  }

  lemma {:induction false} ShorterWhenFailed(cells: Cells, fails: Failing, k: nat)
    ensures var w := WriteAll(cells, fails, k);
            |w.cells| <= |cells| && (w.status != OK ==> |w.cells| < |cells|)
  {
    if cells != [] && !fails(k) {
      ShorterWhenFailed(cells[1..], fails, k + 1);
    }
  }

  lemma NoSectionsNoCells(d: Descriptor)
    ensures d.sections == [] ==> WriteSections(d.sections) == []
  {
  }

  lemma {:induction false} NothingFails(cells: Cells, fails: Failing, k: nat)
    requires forall j :: k <= j ==> !fails(j)
    ensures WriteAll(cells, fails, k).status == OK
  {
    if cells != [] {
      NothingFails(cells[1..], fails, k + 1);
    }
  }

  /** When no write fails the parcel is the one of WriteParcel. */
  lemma NoFailureWritesAll(d: Descriptor, fails: Failing, k: nat)
    requires WellFormed(d) && forall j :: k <= j ==> !fails(j)
    ensures var w := WriteAttempt(d, fails, k); w.status == OK && w.cells == WriteParcel(d)
  {
    OkExactlyWhen(d, fails, k);
    NothingFails(WriteTags(Records(d)), fails, k + 1);
    if d.sections != [] {
      NothingFails(WriteSections(d.sections), fails, k + 1 + WriteAll(WriteTags(Records(d)), fails, k + 1).tried);
    }
    HeadIsWritten(d, fails, k);
  }

  /** For every descriptor with a tag: when only the write of the first tag fails, OK is returned. */
  lemma FailureIsForgotten(d: Descriptor)
    requires WellFormed(d) && d.names != []
    ensures var w := WriteAttempt(d, k => k == 1, 0); w.status == OK && w.cells != WriteParcel(d)
  {
    var fails: Failing := k => k == 1;
    var all := WriteTags(Records(d));
    assert Records(d) != [] && d.sections != [] by {
      assert 0 <= d.sectionOf[0].value < |d.sections|;
    }
    assert |all| > 0;
    assert WriteAll(all, fails, 1) == Written([], 1, NO_MEMORY);
    NothingFails(WriteSections(d.sections), fails, 2);
    OkExactlyWhen(d, fails, 0);
    assert TagsFail(d, fails, 0);
  }

  // ----- What is in the parcel afterwards -----

  /** The first m cells get written, and if they are not all, the write of the next one fails. */
  ghost predicate WrittenUpTo(cells: Cells, fails: Failing, k: nat, m: nat) {
    m <= |cells| && (forall j :: k <= j < k + m ==> !fails(j)) && (m < |cells| ==> fails(k + m))
  }

  /** The writes tried for that. */
  function Tried(cells: Cells, m: nat): nat {
    if m < |cells| then m + 1 else m
  }

  lemma {:induction false} WritesStop(cells: Cells, fails: Failing, k: nat) returns (m: nat)
    ensures WrittenUpTo(cells, fails, k, m)
    ensures WriteAll(cells, fails, k) == Written(cells[..m], Tried(cells, m), if m == |cells| then OK else NO_MEMORY)
    decreases |cells|
  {
    if cells == [] || fails(k) {
      m := 0;
    } else {
      var n := WritesStop(cells[1..], fails, k + 1);
      m := n + 1;
      assert cells[..m] == [cells[0]] + cells[1..][..n];
    }
  }

  /** What an attempt leaves: the count, m cells of the tags and n of the sections, or nothing. */
  ghost predicate Leaves(d: Descriptor, fails: Failing, k: nat, m: nat, n: nat)
    requires WellFormed(d)
  {
    var w, tags, sections := WriteAttempt(d, fails, k), WriteTags(Records(d)), WriteSections(d.sections);
    && WrittenUpTo(tags, fails, k + 1, m) && WrittenUpTo(sections, fails, k + 1 + Tried(tags, m), n)
    && w == Written([Int(U32(d.tagCount))] + tags[..m] + sections[..n], 1 + Tried(tags, m) + Tried(sections, n),
                    if (if d.sections == [] then m == |tags| else n == |sections|) then OK else NO_MEMORY)
  }

  /** The parcel holds the count, the tags up to the first write that failed, and behind them the sections up to the
      first write of theirs that failed; nothing at all if the count could not be written. The status tells of
      the sections only, if there are any. */
  lemma WhatIsWritten(d: Descriptor, fails: Failing, k: nat)
    requires WellFormed(d)
    ensures if fails(k) then WriteAttempt(d, fails, k) == Written([], 1, NO_MEMORY)
            else exists m, n :: Leaves(d, fails, k, m, n)
  {
    hide WriteTags, WriteSections, Records, WellFormed, WriteAll, WrittenUpTo;
    HeadIsWritten(d, fails, k);
    if !fails(k) {
      var tags, sections := WriteTags(Records(d)), WriteSections(d.sections);
      var m := WritesStop(tags, fails, k + 1);
      var n := WritesStop(sections, fails, k + 1 + Tried(tags, m));
      NoSectionsNoCells(d);
      assert d.sections == [] ==> sections[..n] == [] && [Int(U32(d.tagCount))] + tags[..m] + [] == [Int(U32(d.tagCount))] + tags[..m];
      assert Leaves(d, fails, k, m, n);
    }
  }
}
