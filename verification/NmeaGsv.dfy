/** The satellites-in-view sentences of loc_eng_nmea_generate_sv
    (gps/loc_api/libloc_api_50001/loc_eng_nmea.cpp:606-791). */
module NmeaGsv {
  import opened CStrings
  import opened Selections

  const GPS_PRN_START := 1
  const GPS_PRN_END := 32
  const GLONASS_PRN_START := 65
  const GLONASS_PRN_END := 96

  const SVS_PER_SENTENCE := 4

  const NMEA_SENTENCE_MAX_LENGTH := 200
  const INT_MAX := 0x7FFF_FFFF

  /** What loc_eng_nmea_put_checksum appends: a star, two digits, CR, LF; and the NUL. */
  const CHECKSUM_SPACE := 6

  datatype Sv = Sv(prn: int, elevation: real, azimuth: real, snr: real)

  datatype Talker = Gps | Glonass

  /** A GSV sentence before its fields are printed. */
  datatype Sentence =
    | Blank(talker: Talker)
    | Gsv(talker: Talker, sentenceCount: nat, sentenceNumber: nat, inView: nat, svs: seq<Sv>)

  predicate Heard(talker: Talker, sv: Sv) {
    match talker
    case Gps => GPS_PRN_START <= sv.prn <= GPS_PRN_END
    case Glonass => GLONASS_PRN_START <= sv.prn <= GLONASS_PRN_END
  }

  /** The satellites of one system, in the order of the report. */
  function InView(talker: Talker, svs: seq<Sv>): seq<Sv> {
    if svs == [] then []
    else
      var sv := svs[|svs| - 1];
      InView(talker, svs[..|svs| - 1]) + if Heard(talker, sv) then [sv] else []
  }

  function Pages(n: nat): nat {
    n / SVS_PER_SENTENCE + if n % SVS_PER_SENTENCE != 0 then 1 else 0
  }

  function Min(a: int, b: int): int {
    if a <= b then a else b
  }

  /** The k-th group of four. */
  function Page(seen: seq<Sv>, k: nat): (page: seq<Sv>)
    requires k < Pages(|seen|)
  {
    seen[SVS_PER_SENTENCE * k..Min(SVS_PER_SENTENCE * (k + 1), |seen|)]
  }

  function Sentences(talker: Talker, seen: seq<Sv>): seq<Sentence> {
    if seen == [] then [Blank(talker)]
    else seq(Pages(|seen|), k requires 0 <= k < Pages(|seen|) => Gsv(talker, Pages(|seen|), k + 1, |seen|, Page(seen, k)))
  }

  // ----- The text of a sentence -----

  /** A cast to int, which truncates. */
  function Truncated(r: real): int {
    if r >= 0.0 then r.Floor else -((-r).Floor)
  }

  function Rounded(r: real): int {
    Truncated(0.5 + r)
  }

  /** The casts are of values that an int can hold, as C demands. */
  predicate Printable(sv: Sv) {
    && LONG_MIN <= Rounded(sv.elevation) <= LONG_MAX && LONG_MIN <= Rounded(sv.azimuth) <= LONG_MAX
    && (sv.snr > 0.0 ==> Rounded(sv.snr) <= LONG_MAX)
  }

  function Tag(talker: Talker): (s: string)
    ensures |s| == 7
  {
    match talker
    case Gps => "$GPGSV,"
    case Glonass => "$GLGSV,"
  }

  function HeaderText(talker: Talker, sentenceCount: nat, sentenceNumber: nat, inView: nat): string {
    Tag(talker) + PrintInt(sentenceCount) + "," + PrintInt(sentenceNumber) + "," + PrintPadded(inView, 2)
  }

  function PlaceText(sv: Sv): string {
    "," + PrintPadded(sv.prn, 2) + "," + PrintPadded(Rounded(sv.elevation), 2) + "," + PrintPadded(Rounded(sv.azimuth), 3) + ","
  }

  function SnrText(sv: Sv): string {
    if sv.snr > 0.0 then PrintPadded(Rounded(sv.snr), 2) else ""
  }

  function SvsText(svs: seq<Sv>): string {
    if svs == [] then ""
    else SvsText(svs[..|svs| - 1]) + (PlaceText(svs[|svs| - 1]) + SnrText(svs[|svs| - 1]))
  }

  function Text(s: Sentence): string {
    match s
    case Blank(talker) => Tag(talker) + "1,1,0,"
    case Gsv(talker, count, number, inView, svs) => HeaderText(talker, count, number, inView) + SvsText(svs)
  }

  function Texts(ss: seq<Sentence>): (ts: seq<string>)
    ensures |ts| == |ss|
  {
    seq(|ss|, i requires 0 <= i < |ss| => Text(ss[i]))
  }

  const HEADER_LENGTH := 39
  const SV_LENGTH := 38

  lemma HeaderIsShort(talker: Talker, sentenceCount: nat, sentenceNumber: nat, inView: nat)
    requires sentenceCount <= INT_MAX && sentenceNumber <= INT_MAX && inView <= INT_MAX
    ensures |HeaderText(talker, sentenceCount, sentenceNumber, inView)| <= HEADER_LENGTH
  {
    hide PrintInt, PrintPadded;
    PrintedLength(sentenceCount, 2);
    PrintedLength(sentenceNumber, 2);
    PrintedLength(inView, 2);
  }

  lemma SvIsShort(talker: Talker, sv: Sv)
    requires Heard(talker, sv) && Printable(sv)
    ensures |PlaceText(sv)| + |SnrText(sv)| <= SV_LENGTH
  {
    hide PrintInt, PrintPadded;
    PrintedLength(sv.prn, 2);
    PrintedLength(Rounded(sv.elevation), 2);
    PrintedLength(Rounded(sv.azimuth), 3);
    if sv.snr > 0.0 {
      PrintedLength(Rounded(sv.snr), 2);
    }
  }

  lemma {:induction false} SvsAreShort(talker: Talker, svs: seq<Sv>)
    requires forall sv :: sv in svs ==> Heard(talker, sv) && Printable(sv)
    ensures |SvsText(svs)| <= SV_LENGTH * |svs|
  {
    hide Heard, Printable, PlaceText, SnrText;
    if svs != [] {
      SvsAreShort(talker, svs[..|svs| - 1]);
      SvIsShort(talker, svs[|svs| - 1]);
    }
  }

  lemma SentenceFits(talker: Talker, seen: seq<Sv>, k: nat)
    requires |seen| <= INT_MAX && k < Pages(|seen|)
    requires forall i :: 0 <= i < |seen| ==> Heard(talker, seen[i]) && Printable(seen[i])
    ensures |HeaderText(talker, Pages(|seen|), k + 1, |seen|)| + |SvsText(Page(seen, k))| + CHECKSUM_SPACE <= NMEA_SENTENCE_MAX_LENGTH
  {
    hide HeaderText, SvsText, Heard, Printable;
    HeaderIsShort(talker, Pages(|seen|), k + 1, |seen|);
    SvsAreShort(talker, Page(seen, k));
  }

  /** Whatever the report says, every sentence fits the buffer with its checksum: the checks on the length
      that snprintf returns never fail. */
  lemma SentencesFit(talker: Talker, seen: seq<Sv>)
    requires |seen| <= INT_MAX
    requires forall i :: 0 <= i < |seen| ==> Heard(talker, seen[i]) && Printable(seen[i])
    ensures forall k :: 0 <= k < |Sentences(talker, seen)| ==>
              |Text(Sentences(talker, seen)[k])| + CHECKSUM_SPACE <= NMEA_SENTENCE_MAX_LENGTH
  {
    hide HeaderText, SvsText, Heard, Printable;
    forall k | 0 <= k < |Sentences(talker, seen)|
      ensures |Text(Sentences(talker, seen)[k])| + CHECKSUM_SPACE <= NMEA_SENTENCE_MAX_LENGTH
    {
      if seen != [] {
        SentenceFits(talker, seen, k);
      }
    }
  }

  // ----- What the sentences say together -----

  function Listed(sentences: seq<Sentence>): seq<Sv> {
    if sentences == [] then []
    else
      var last := sentences[|sentences| - 1];
      Listed(sentences[..|sentences| - 1]) + if last.Gsv? then last.svs else []
  }

  lemma SentenceAt(talker: Talker, seen: seq<Sv>, k: nat)
    requires k < Pages(|seen|)
    ensures |Sentences(talker, seen)| == Pages(|seen|)
    ensures Sentences(talker, seen)[k] == Gsv(talker, Pages(|seen|), k + 1, |seen|, Page(seen, k))
  {
  }

  lemma ListedStep(ss: seq<Sentence>, k: nat)
    requires k < |ss| && ss[k].Gsv?
    ensures Listed(ss[..k + 1]) == Listed(ss[..k]) + ss[k].svs
  {
    assert ss[..k + 1][..k] == ss[..k];
  }

  lemma PagesMeet(seen: seq<Sv>, k: nat)
    requires k < Pages(|seen|)
    ensures SVS_PER_SENTENCE * k < |seen|
    ensures seen[..Min(SVS_PER_SENTENCE * k, |seen|)] + Page(seen, k) == seen[..Min(SVS_PER_SENTENCE * (k + 1), |seen|)]
  {
  }

  lemma {:induction false} ListedPages(talker: Talker, seen: seq<Sv>, k: nat)
    requires seen != [] && k <= Pages(|seen|) && |Sentences(talker, seen)| == Pages(|seen|)
    ensures Listed(Sentences(talker, seen)[..k]) == seen[..Min(SVS_PER_SENTENCE * k, |seen|)]
  {
    hide Sentences, Listed, Page, Pages;
    if k == 0 {
      NothingListed();
      assert Sentences(talker, seen)[..0] == [] && seen[..0] == [];
    } else {
      ListedPages(talker, seen, k - 1);
      SentenceAt(talker, seen, k - 1);
      ListedStep(Sentences(talker, seen), k - 1);
      PagesMeet(seen, k - 1);
    }
  }

  lemma NothingListed()
    ensures Listed([]) == []
  {
  }

  /** The sentences list the satellites once each and in order, four to a sentence but for the last, and
      each says how many there are; there are just enough of them, and one blank one for none. */
  lemma SentencesListAll(talker: Talker, seen: seq<Sv>)
    ensures var out := Sentences(talker, seen);
            && Listed(out) == seen && |out| == (if seen == [] then 1 else (|seen| + 3) / 4)
            && (seen == [] <==> out == [Blank(talker)])
            && (seen != [] ==> forall k :: 0 <= k < |out| ==>
                  && out[k].Gsv? && out[k].talker == talker && out[k].sentenceCount == |out|
                  && out[k].sentenceNumber == k + 1 && out[k].inView == |seen|
                  && (k < |out| - 1 ==> |out[k].svs| == 4) && 0 < |out[k].svs| <= 4)
  {
    var out := Sentences(talker, seen);
    if seen == [] {
      assert Listed(out[..0]) == [];
    } else {
      ListedPages(talker, seen, Pages(|seen|));
      assert out[..Pages(|seen|)] == out;
    }
  }

  /** A satellite is listed exactly when it is in the report and its system is heard. */
  lemma {:induction false} InViewIsTheReport(talker: Talker, svs: seq<Sv>)
    ensures forall sv :: sv in InView(talker, svs) <==> sv in svs && Heard(talker, sv)
    ensures multiset(InView(talker, svs)) <= multiset(svs)
  {
    if svs != [] {
      InViewIsTheReport(talker, svs[..|svs| - 1]);
      assert svs == svs[..|svs| - 1] + [svs[|svs| - 1]];
    }
  }

  /** The satellites numbered 1 to 32 (GPS) or 65 to 96 (GLONASS) are listed, once each and in the order of the
      report. */
  lemma {:induction false} InViewIsInOrder(talker: Talker, svs: seq<Sv>)
    ensures Selects(svs, InView(talker, svs), (sv: Sv) => Heard(talker, sv), (sv: Sv) => sv)
    ensures forall sv :: Heard(talker, sv) <==> if talker.Gps? then 1 <= sv.prn <= 32 else 65 <= sv.prn <= 96
  {
    hide Selects;
    if svs == [] {
      SelectsNothing((sv: Sv) => Heard(talker, sv), (sv: Sv) => sv);
    } else {
      var front, last := svs[..|svs| - 1], svs[|svs| - 1];
      InViewIsInOrder(talker, front);
      SelectsLast(front, InView(talker, front), (sv: Sv) => Heard(talker, sv), (sv: Sv) => sv, last);
      assert svs == front + [last];
    }
  }

  lemma {:induction false} InViewPrefix(talker: Talker, svs: seq<Sv>, k: nat)
    requires k <= |svs|
    ensures InView(talker, svs[..k]) <= InView(talker, svs)
  {
    if k == |svs| {
      assert svs[..k] == svs;
    } else {
      InViewPrefix(talker, svs[..|svs| - 1], k);
      assert svs[..|svs| - 1][..k] == svs[..k];
    }
  }

  lemma InViewStep(talker: Talker, svs: seq<Sv>, k: nat)
    requires k < |svs|
    ensures InView(talker, svs[..k + 1]) == InView(talker, svs[..k]) + if Heard(talker, svs[k]) then [svs[k]] else []
  {
    assert svs[..k + 1][..k] == svs[..k];
  }

  // ----- The loops -----

  /** Lines 624-635. */
  method CountSvs(svs: seq<Sv>) returns (gpsCount: nat, glnCount: nat)
    ensures gpsCount == |InView(Gps, svs)| && glnCount == |InView(Glonass, svs)|
  {
    gpsCount, glnCount := 0, 0;
    var svNumber := 1;
    while svNumber <= |svs|
      invariant 1 <= svNumber <= |svs| + 1
      invariant gpsCount == |InView(Gps, svs[..svNumber - 1])| && glnCount == |InView(Glonass, svs[..svNumber - 1])|
    {
      InViewStep(Gps, svs, svNumber - 1);
      InViewStep(Glonass, svs, svNumber - 1);
      var prn := svs[svNumber - 1].prn;
      if GPS_PRN_START <= prn <= GPS_PRN_END {
        gpsCount := gpsCount + 1;
      } else if GLONASS_PRN_START <= prn <= GLONASS_PRN_END {
        glnCount := glnCount + 1;
      }
      svNumber := svNumber + 1;
    }
    assert svs[..|svs|] == svs;
  }

  lemma SvsTextStep(page: seq<Sv>, sv: Sv)
    ensures SvsText(page + [sv]) == SvsText(page) + (PlaceText(sv) + SnrText(sv))
  {
    assert (page + [sv])[..|page|] == page;
  }

  /** Lines 670-705 and 748-783: the satellites of one sentence, printed behind its header. Where the
      source returns because a text does not fit, the model has the proof that it does. */
  method FillSentence(talker: Talker, svs: seq<Sv>, start: nat, header: string)
    returns (svNumber: nat, sentence: string, ghost page: seq<Sv>)
    requires 1 <= start <= |svs| + 1 && |header| <= HEADER_LENGTH
    requires forall i :: 0 <= i < |svs| ==> Printable(svs[i])
    ensures start <= svNumber <= |svs| + 1
    ensures InView(talker, svs[..svNumber - 1]) == InView(talker, svs[..start - 1]) + page
    ensures |page| <= SVS_PER_SENTENCE && (|page| < SVS_PER_SENTENCE ==> svNumber == |svs| + 1)
    ensures sentence == header + SvsText(page)
  {
    hide InView, Heard, Printable, PlaceText, SnrText, SvsText;
    svNumber, sentence, page := start, header, [];
    var lengthRemaining := NMEA_SENTENCE_MAX_LENGTH - |header|;
    NoSvsText();
    var i := 0;
    while svNumber <= |svs| && i < SVS_PER_SENTENCE
      invariant start <= svNumber <= |svs| + 1 && i == |page| <= SVS_PER_SENTENCE
      invariant InView(talker, svs[..svNumber - 1]) == InView(talker, svs[..start - 1]) + page
      invariant sentence == header + SvsText(page)
      invariant lengthRemaining == NMEA_SENTENCE_MAX_LENGTH - |sentence|
      invariant |sentence| <= HEADER_LENGTH + SV_LENGTH * i
      decreases |svs| - svNumber
    {
      var sv := svs[svNumber - 1];
      InViewStep(talker, svs, svNumber - 1);
      if Heard(talker, sv) {
        SvIsShort(talker, sv);
        SvsTextStep(page, sv);
        var place := PlaceText(sv);
        assert |place| < lengthRemaining;
        sentence := sentence + place;
        lengthRemaining := lengthRemaining - |place|;
        if sv.snr > 0.0 {
          var snr := SnrText(sv);
          assert |snr| < lengthRemaining;
          sentence := sentence + snr;
          lengthRemaining := lengthRemaining - |snr|;
        }
        NoSnrText(sv);
        page := page + [sv];
        i := i + 1;
      }
      svNumber := svNumber + 1;
    }
  }

  lemma NoSvsText()
    ensures SvsText([]) == ""
  {
  }

  lemma NoSnrText(sv: Sv)
    ensures !(sv.snr > 0.0) ==> SnrText(sv) == ""
  {
  }

  /** Lines 641-713 and 719-791. */
  method SendInView(talker: Talker, svs: seq<Sv>, count: nat) returns (sent: seq<string>)
    requires count == |InView(talker, svs)| && |svs| <= INT_MAX
    requires forall i :: 0 <= i < |svs| ==> Printable(svs[i])
    ensures sent == Texts(Sentences(talker, InView(talker, svs)))
  {
    hide InView, Heard, Printable, HeaderText, SvsText;
    if count <= 0 {
      return [Tag(talker) + "1,1,0,"];
    }
    ghost var seen := InView(talker, svs);
    InViewIsTheReport(talker, svs);
    InViewIsShort(talker, svs);
    var svNumber, sentenceNumber := 1, 1;
    var sentenceCount := count / 4 + if count % 4 != 0 then 1 else 0;
    sent := [];
    assert svs[..0] == [];
    NoneInView(talker);
    while sentenceNumber <= sentenceCount
      invariant 1 <= sentenceNumber <= sentenceCount + 1 && 1 <= svNumber <= |svs| + 1
      invariant InView(talker, svs[..svNumber - 1]) == seen[..Min(SVS_PER_SENTENCE * (sentenceNumber - 1), |seen|)]
      invariant sent == Texts(Sentences(talker, seen))[..sentenceNumber - 1]
    {
      HeaderIsShort(talker, sentenceCount, sentenceNumber, count);
      var header := HeaderText(talker, sentenceCount, sentenceNumber, count);
      assert |header| < NMEA_SENTENCE_MAX_LENGTH;
      var sentence;
      ghost var page;
      svNumber, sentence, page := FillSentence(talker, svs, svNumber, header);
      InViewPrefix(talker, svs, svNumber - 1);
      assert svNumber == |svs| + 1 ==> svs[..svNumber - 1] == svs;
      PageIsFilled(seen, sentenceNumber - 1, page, svNumber == |svs| + 1);
      TextAt(talker, seen, sentenceNumber - 1);
      sent := sent + [sentence];
      sentenceNumber := sentenceNumber + 1;
    }
    assert Texts(Sentences(talker, seen))[..sentenceCount] == Texts(Sentences(talker, seen));
  }

  lemma NoneInView(talker: Talker)
    ensures InView(talker, []) == []
  {
  }

  lemma InViewIsShort(talker: Talker, svs: seq<Sv>)
    ensures |InView(talker, svs)| <= |svs|
  {
    InViewIsTheReport(talker, svs);
    assert |multiset(InView(talker, svs))| <= |multiset(svs)|;
  }

  lemma TextAt(talker: Talker, seen: seq<Sv>, k: nat)
    requires k < Pages(|seen|)
    ensures |Sentences(talker, seen)| == Pages(|seen|)
    ensures Texts(Sentences(talker, seen))[..k + 1] == Texts(Sentences(talker, seen))[..k]
         + [HeaderText(talker, Pages(|seen|), k + 1, |seen|) + SvsText(Page(seen, k))]
  {
    hide HeaderText, SvsText, Page;
    var ss := Sentences(talker, seen);
    assert ss[k] == Gsv(talker, Pages(|seen|), k + 1, |seen|, Page(seen, k));
    hide Sentences;
    assert Texts(ss)[k] == Text(ss[k]);
    hide Texts;
    assert Texts(ss)[..k + 1] == Texts(ss)[..k] + [Texts(ss)[k]];
  }

  /** A prefix that grows by at most four, and by fewer only at the end, grows by the next page. */
  lemma PageIsFilled(seen: seq<Sv>, k: nat, page: seq<Sv>, end: bool)
    requires k < Pages(|seen|) && SVS_PER_SENTENCE * k < |seen|
    requires seen[..SVS_PER_SENTENCE * k] + page <= seen && |page| <= SVS_PER_SENTENCE
    requires end ==> seen[..SVS_PER_SENTENCE * k] + page == seen
    requires !end ==> |page| == SVS_PER_SENTENCE
    ensures page == Page(seen, k)
    ensures seen[..SVS_PER_SENTENCE * k] + page == seen[..Min(SVS_PER_SENTENCE * (k + 1), |seen|)]
  {
    var grown := seen[..SVS_PER_SENTENCE * k] + page;
    assert grown == seen[..|grown|];
    assert page == grown[SVS_PER_SENTENCE * k..];
  }

  /** The whole function: GPS first, then GLONASS. */
  method GenerateSv(svs: seq<Sv>) returns (sent: seq<string>)
    requires |svs| <= INT_MAX && forall i :: 0 <= i < |svs| ==> Printable(svs[i])
    ensures sent == Texts(Sentences(Gps, InView(Gps, svs))) + Texts(Sentences(Glonass, InView(Glonass, svs)))
  {
    hide *;
    var gpsCount, glnCount := CountSvs(svs);
    var gps := SendInView(Gps, svs, gpsCount);
    var gln := SendInView(Glonass, svs, glnCount);
    sent := gps + gln;
  }
}
