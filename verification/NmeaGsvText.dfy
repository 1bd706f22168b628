/** Reading a GSV sentence back: what a receiver that knows nothing of the printing makes of its text. */
module NmeaGsvText {
  import opened CStrings
  import opened NmeaGsv

  // ----- The reader -----

  /** A field between two commas: a number with the characters it takes. */
  datatype Field = Empty | Number(n: int, width: nat) | Garbage

  function FieldOf(f: string): Field {
    if f == "" then Empty
    else
      var r := Strtol(f);
      if r.1 == |f| then Number(r.0, |f|) else Garbage
  }

  function Read(s: string): seq<Field> {
    var i := Strchr(s, ',');
    [FieldOf(s[..i])] + if i == |s| then [] else Read(s[i + 1..])
  }

  /** The system that a text is about, by the two letters after the dollar sign. */
  predicate IsAbout(text: string, talker: Talker) {
    && |text| >= 7 && text[0] == '$' && text[3..7] == "GSV,"
    && text[1..3] == match talker case Gps => "GP" case Glonass => "GL"
  }

  // ----- Rounding -----

  /** The cast of 0.5 + r is the nearest integer from -0.5 up, and below that the next one above r + 0.5. */
  lemma RoundedIs(r: real)
    ensures if r >= -0.5 then Rounded(r) as real <= r + 0.5 < Rounded(r) as real + 1.0
            else r + 0.5 <= Rounded(r) as real < r + 1.5
  {
  }

  // ----- What is read of each field -----

  /** A number in so many characters, or more if it needs them. */
  function Wide(n: int, width: nat): Field {
    Number(n, if |PrintInt(n)| < width then width else |PrintInt(n)|)
  }

  /** What a sentence says of a satellite: no signal strength for one that is not tracked. */
  function Said(sv: Sv): seq<Field> {
    [Wide(sv.prn, 2), Wide(Rounded(sv.elevation), 2), Wide(Rounded(sv.azimuth), 3),
     if sv.snr > 0.0 then Wide(Rounded(sv.snr), 2) else Empty]
  }

  function SaidOf(svs: seq<Sv>): seq<Field> {
    if svs == [] then [] else Said(svs[0]) + SaidOf(svs[1..])
  }

  lemma ReadLast(f: string)
    requires ',' !in f
    ensures Read(f) == [FieldOf(f)]
  {
    StrchrFindsFirst(f, ',');
    assert f[..|f|] == f;
  }

  lemma ReadNext(f: string, rest: string)
    requires ',' !in f
    ensures Read(f + [','] + rest) == [FieldOf(f)] + Read(rest)
  {
    StrchrAt(f, ',', rest);
    var s := f + [','] + rest;
    assert s[..|f|] == f && s[|f| + 1..] == rest;
  }

  lemma IntIsRead(n: int)
    requires LONG_MIN <= n <= LONG_MAX
    ensures ',' !in PrintInt(n) && FieldOf(PrintInt(n)) == Wide(n, 1)
  {
    hide Strtol, Digits;
    StrtolReadsPrintInt(n, "");
    assert PrintInt(n) + "" == PrintInt(n);
    DigitsAreDigits(if n < 0 then -n else n);
  }

  lemma PaddedIsRead(n: int, width: nat)
    requires LONG_MIN <= n <= LONG_MAX
    ensures ',' !in PrintPadded(n, width) && FieldOf(PrintPadded(n, width)) == Wide(n, width)
  {
    PaddedWidth(n, width);
    hide Strtol, PrintPadded;
    StrtolReadsPrintPadded(n, width, "");
    assert PrintPadded(n, width) + "" == PrintPadded(n, width);
    PrintPaddedHasNo(n, width, ',');
  }

  lemma PaddedWidth(n: int, width: nat)
    ensures |PrintPadded(n, width)| == if |PrintInt(n)| < width then width else |PrintInt(n)|
  {
  }

  lemma SnrIsRead(sv: Sv)
    requires Printable(sv)
    ensures ',' !in SnrText(sv) && FieldOf(SnrText(sv)) == if sv.snr > 0.0 then Wide(Rounded(sv.snr), 2) else Empty
  {
    hide PrintPadded, Rounded, FieldOf, PrintInt;
    if sv.snr > 0.0 {
      SnrFits(sv);
      PaddedIsRead(Rounded(sv.snr), 2);
    } else {
      EmptyIsRead();
    }
  }

  lemma EmptyIsRead()
    ensures FieldOf("") == Empty
  {
  }

  lemma SnrFits(sv: Sv)
    requires Printable(sv) && sv.snr > 0.0
    ensures LONG_MIN <= Rounded(sv.snr) <= LONG_MAX
  {
    RoundedIs(sv.snr);
  }

  predicate Sendable(sv: Sv) {
    Printable(sv) && LONG_MIN <= sv.prn <= LONG_MAX
  }

  // ----- What is read of the satellites -----

  lemma {:induction false} SvsTextFirst(svs: seq<Sv>)
    requires svs != []
    ensures SvsText(svs) == PlaceText(svs[0]) + SnrText(svs[0]) + SvsText(svs[1..])
  {
    hide PlaceText, SnrText;
    var front, last := svs[..|svs| - 1], svs[|svs| - 1];
    if front == [] {
      assert SvsText(front) == "" && SvsText(svs[1..]) == "";
    } else {
      SvsTextFirst(front);
      assert svs[1..][..|svs| - 2] == front[1..];
      assert SvsText(svs[1..]) == SvsText(front[1..]) + (PlaceText(last) + SnrText(last));
    }
  }

  lemma NoSvsIsRead(f: string)
    requires ',' !in f
    ensures Read(f + SvsText([])) == [FieldOf(f)] + SaidOf([])
  {
    assert f + SvsText([]) == f;
    ReadLast(f);
  }

  /** A field, and behind it the place of a satellite. */
  lemma PlaceIsRead(f: string, sv: Sv, rest: string)
    requires ',' !in f && Sendable(sv)
    ensures Read(f + (PlaceText(sv) + rest))
         == [FieldOf(f), Wide(sv.prn, 2), Wide(Rounded(sv.elevation), 2), Wide(Rounded(sv.azimuth), 3)] + Read(rest)
  {
    hide Read, FieldOf, PrintPadded, Rounded, PrintInt;
    var p, e, a := PrintPadded(sv.prn, 2), PrintPadded(Rounded(sv.elevation), 2), PrintPadded(Rounded(sv.azimuth), 3);
    PaddedIsRead(sv.prn, 2);
    PaddedIsRead(Rounded(sv.elevation), 2);
    PaddedIsRead(Rounded(sv.azimuth), 3);
    PlaceSplits(f, p, e, a, rest);
    ReadNext(f, p + [','] + (e + [','] + (a + [','] + rest)));
    ReadNext(p, e + [','] + (a + [','] + rest));
    ReadNext(e, a + [','] + rest);
    ReadNext(a, rest);
  }

  lemma PlaceSplits(f: string, p: string, e: string, a: string, rest: string)
    ensures f + ("," + p + "," + e + "," + a + "," + rest)
         == f + [','] + (p + [','] + (e + [','] + (a + [','] + rest)))
  {
  }

  lemma {:induction false} SvsAreRead(f: string, svs: seq<Sv>)
    requires ',' !in f && forall i :: 0 <= i < |svs| ==> Sendable(svs[i])
    ensures Read(f + SvsText(svs)) == [FieldOf(f)] + SaidOf(svs)
    decreases |svs|
  {
    hide Read, FieldOf, SvsText, PlaceText, SnrText, Printable, Rounded, Wide, Said;
    if svs == [] {
      NoSvsIsRead(f);
    } else {
      var sv, rest := svs[0], SvsText(svs[1..]);
      SvsTextFirst(svs);
      SnrIsRead(sv);
      PlaceIsRead(f, sv, SnrText(sv) + rest);
      SvsAreRead(SnrText(sv), svs[1..]);
      TextsJoin(f, PlaceText(sv), SnrText(sv), rest);
      SaidJoins(FieldOf(f), sv, SaidOf(svs[1..]));
    }
  }

  lemma TextsJoin(f: string, place: string, snr: string, rest: string)
    ensures f + (place + snr + rest) == f + (place + (snr + rest))
  {
    assert place + snr + rest == place + (snr + rest);
  }

  lemma SaidJoins(x: Field, sv: Sv, rest: seq<Field>)
    ensures [x, Wide(sv.prn, 2), Wide(Rounded(sv.elevation), 2), Wide(Rounded(sv.azimuth), 3)]
          + ([if sv.snr > 0.0 then Wide(Rounded(sv.snr), 2) else Empty] + rest) == [x] + (Said(sv) + rest)
  {
    hide Wide, Rounded;
  }

  // ----- What is read of a sentence -----

  lemma HeaderIsRead(talker: Talker, count: nat, number: nat, inView: nat, svs: seq<Sv>)
    requires count <= INT_MAX && number <= INT_MAX && inView <= INT_MAX
    requires forall i :: 0 <= i < |svs| ==> Sendable(svs[i])
    ensures var text := HeaderText(talker, count, number, inView) + SvsText(svs);
            IsAbout(text, talker) && Read(text[7..]) == [Wide(count, 1), Wide(number, 1), Wide(inView, 2)] + SaidOf(svs)
  {
    hide *;
    var c, n, v, rest := PrintInt(count), PrintInt(number), PrintPadded(inView, 2), SvsText(svs);
    CountsFit();
    IntIsRead(count);
    IntIsRead(number);
    PaddedIsRead(inView, 2);
    HeaderSplits(talker, c, n, v, rest);
    HeaderTextIs(talker, count, number, inView);
    ReadNext(c, n + [','] + (v + rest));
    ReadNext(n, v + rest);
    SvsAreRead(v, svs);
    FieldsJoin(Wide(count, 1), Wide(number, 1), Wide(inView, 2), SaidOf(svs));
  }

  lemma FieldsJoin(a: Field, b: Field, c: Field, rest: seq<Field>)
    ensures [a] + ([b] + ([c] + rest)) == [a, b, c] + rest
  {
  }

  lemma CountsFit()
    ensures LONG_MIN <= 0 && INT_MAX == LONG_MAX
  {
  }

  lemma HeaderTextIs(talker: Talker, count: nat, number: nat, inView: nat)
    ensures HeaderText(talker, count, number, inView)
         == Tag(talker) + PrintInt(count) + "," + PrintInt(number) + "," + PrintPadded(inView, 2)
  {
  }

  lemma HeaderSplits(talker: Talker, c: string, n: string, v: string, rest: string)
    ensures var text := Tag(talker) + c + "," + n + "," + v + rest;
            IsAbout(text, talker) && text[7..] == c + [','] + (n + [','] + (v + rest))
  {
    HeaderJoins(Tag(talker), c, n, v, rest);
    BehindTag(Tag(talker), c + [','] + (n + [','] + (v + rest)));
  }

  lemma HeaderJoins(tag: string, c: string, n: string, v: string, rest: string)
    ensures tag + c + "," + n + "," + v + rest == tag + (c + [','] + (n + [','] + (v + rest)))
  {
  }

  lemma BehindTag(tag: string, tail: string)
    requires |tag| == 7
    ensures var text := tag + tail;
            text[7..] == tail && text[0] == tag[0] && text[1..3] == tag[1..3] && text[3..7] == tag[3..7]
  {
  }

  lemma BlankIsRead(talker: Talker)
    ensures var text := Text(Blank(talker));
            IsAbout(text, talker) && Read(text[7..]) == [Number(1, 1), Number(1, 1), Number(0, 1), Empty]
  {
    hide Read, FieldOf, PrintInt;
    HeaderSplits(talker, "1", "1", "0", ",");
    IntIsRead(1);
    IntIsRead(0);
    SmallNumbers();
    assert "0" + "," == "0" + [','] + "";
    ReadNext("1", "1" + [','] + ("0" + [','] + ""));
    ReadNext("1", "0" + [','] + "");
    ReadNext("0", "");
    ReadLast("");
    EmptyIsRead();
    assert Tag(talker) + "1" + "," + "1" + "," + "0" + "," == Text(Blank(talker));
  }

  lemma SmallNumbers()
    ensures PrintInt(0) == "0" && PrintInt(1) == "1"
  {
  }

  /** The k-th text sent for a system reads: so many sentences, the (k + 1)st of them, so many satellites, and of
      the next four each one's number, place and strength. */
  lemma SentIsRead(talker: Talker, seen: seq<Sv>, k: nat)
    requires |seen| <= INT_MAX && k < |Sentences(talker, seen)|
    requires forall i :: 0 <= i < |seen| ==> Sendable(seen[i])
    ensures var sent := Texts(Sentences(talker, seen));
            && IsAbout(sent[k], talker)
            && Read(sent[k][7..]) ==
               if seen == [] then [Number(1, 1), Number(1, 1), Number(0, 1), Empty]
               else [Wide(|sent|, 1), Wide(k + 1, 1), Wide(|seen|, 2)] + SaidOf(seen[4 * k..if 4 * k + 4 <= |seen| then 4 * k + 4 else |seen|])
  {
    hide Read, FieldOf, HeaderText, SvsText, Sendable, SaidOf;
    if seen == [] {
      BlankIsRead(talker);
    } else {
      SentenceAt(talker, seen, k);
      PagesMeet(seen, k);
      assert forall i :: 0 <= i < |Page(seen, k)| ==> Page(seen, k)[i] == seen[4 * k + i];
      HeaderIsRead(talker, Pages(|seen|), k + 1, |seen|, Page(seen, k));
    }
  }
}
