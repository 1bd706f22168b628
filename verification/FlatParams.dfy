/** The camera parameter map of libshims/camera/CameraParameters.cpp: its flat string form and
    its textual sizes. */
module FlatParams {
  import opened Wrappers
  import opened KeyedVectors
  import opened CStrings

  type Params = seq<Entry<string, string>>

  // ----- The map and its flat form -----

  function Flat(m: Params): string {
    if m == [] then ""
    else m[0].key + "=" + m[0].value + if |m| == 1 then "" else ";" + Flat(m[1..])
  }

  /** What the parsing loop adds to m from the text that is left. */
  function Parse(text: string, m: Params): Params
    decreases |text|
  {
    var e := Strchr(text, '=');
    if e == |text| then m
    else
      var rest := text[e + 1..];
      var s := Strchr(rest, ';');
      if s == |rest| then Add(m, StrLess, text[..e], rest)
      else Parse(rest[s + 1..], Add(m, StrLess, text[..e], rest[..s]))
  }

  predicate CleanEntry(e: Entry<string, string>) {
    '=' !in e.key && ';' !in e.value && '\0' !in e.key && '\0' !in e.value
  }

  /** What every reachable map is: sorted, no '=' in a key, no ';' in a value, no NUL. */
  ghost predicate Clean(m: Params) {
    Sorted(m, StrLess) && forall e :: e in m ==> CleanEntry(e)
  }

  lemma AddKeepsClean(m: Params, key: string, value: string)
    requires Clean(m) && CleanEntry(Entry(key, value))
    ensures Clean(Add(m, StrLess, key, value))
  {
    StrLessIsOrder();
    AddKeeps(m, StrLess, key, value);
  }

  /** The definition of Parse, for proofs that hide it. */
  lemma ParseDefinition(text: string, m: Params)
    ensures var e := Strchr(text, '=');
            if e == |text| then Parse(text, m) == m
            else
              var rest := text[e + 1..];
              var s := Strchr(rest, ';');
              Parse(text, m) == if s == |rest| then Add(m, StrLess, text[..e], rest)
                                else Parse(rest[s + 1..], Add(m, StrLess, text[..e], rest[..s]))
  {
    hide Strchr, Add;
  }

  /** The first "key=value" of a text, and what is parsed after it. */
  lemma ParseUnfolds(text: string, m: Params)
    requires Strchr(text, '=') < |text| && '\0' !in text
    ensures var e := Strchr(text, '=');
            var rest := text[e + 1..];
            var s := Strchr(rest, ';');
            && CleanEntry(Entry(text[..e], rest[..s]))
            && '\0' !in rest
            && Parse(text, m) == if s == |rest| then Add(m, StrLess, text[..e], rest[..s])
                                 else Parse(rest[s + 1..], Add(m, StrLess, text[..e], rest[..s]))
  {
    StrchrFindsFirst(text, '=');
    var rest := text[Strchr(text, '=') + 1..];
    StrchrFindsFirst(rest, ';');
    assert rest[..|rest|] == rest;
  }

  lemma {:induction false} ParseKeepsClean(text: string, m: Params)
    requires Clean(m) && '\0' !in text
    ensures Clean(Parse(text, m))
    decreases |text|
  {
    hide *;
    ParseDefinition(text, m);
    var e := Strchr(text, '=');
    if e < |text| {
      var rest := text[e + 1..];
      var s := Strchr(rest, ';');
      ParseUnfolds(text, m);
      AddKeepsClean(m, text[..e], rest[..s]);
      if s < |rest| {
        ParseKeepsClean(rest[s + 1..], Add(m, StrLess, text[..e], rest[..s]));
      }
    }
  }

  lemma ParseLast(key: string, value: string, m: Params)
    requires CleanEntry(Entry(key, value))
    ensures Parse(key + ['='] + value, m) == Add(m, StrLess, key, value)
  {
    var text := key + ['='] + value;
    StrchrAt(key, '=', value);
    assert text[..|key|] == key && text[|key| + 1..] == value;
  }

  lemma ParseMore(key: string, value: string, next: string, m: Params)
    requires CleanEntry(Entry(key, value))
    ensures Parse(key + ['='] + (value + [';'] + next), m) == Parse(next, Add(m, StrLess, key, value))
  {
    var rest := value + [';'] + next;
    var text := key + ['='] + rest;
    StrchrAt(key, '=', rest);
    StrchrAt(value, ';', next);
    assert text[..|key|] == key && text[|key| + 1..] == rest;
    assert rest[..|value|] == value && rest[|value| + 1..] == next;
  }

  lemma FlatOfNothing(m: Params)
    ensures Flat(m[|m|..]) == ""
  {
  }

  lemma FlatUnfolds(m: Params, i: nat)
    requires i < |m|
    ensures Flat(m[i..]) == if i + 1 == |m| then m[i].key + ['='] + m[i].value
                            else m[i].key + ['='] + (m[i].value + [';'] + Flat(m[i + 1..]))
  {
    assert m[i..][0] == m[i] && m[i..][1..] == m[i + 1..];
    if i + 1 < |m| {
      assert Flat(m[i..]) == m[i].key + "=" + m[i].value + (";" + Flat(m[i + 1..]));
    }
  }

  /** One round of the printing loop. */
  lemma FlattenStep(m: Params, i: nat, before: string)
    requires i < |m|
    ensures before + m[i].key + "=" + m[i].value + (if i != |m| - 1 then ";" else "") + Flat(m[i + 1..])
         == before + Flat(m[i..])
  {
    FlatUnfolds(m, i);
    if i == |m| - 1 {
      assert Flat(m[i + 1..]) == "";
    }
  }

  /** Parsing the flat form of the entries from i on completes the map. */
  lemma {:induction false} ParseOfFlat(m: Params, i: nat)
    requires Clean(m) && i <= |m|
    ensures Parse(Flat(m[i..]), m[..i]) == m
    decreases |m| - i
  {
    if i == |m| {
      assert m[..i] == m && m[i..] == [];
    } else {
      var e := m[i];
      FlatUnfolds(m, i);
      assert CleanEntry(e);
      AppendNext(m, i);
      if i + 1 < |m| {
        ParseMore(e.key, e.value, Flat(m[i + 1..]), m[..i]);
        ParseOfFlat(m, i + 1);
      } else {
        ParseLast(e.key, e.value, m[..i]);
        assert m[..i + 1] == m;
      }
    }
  }

  lemma AppendNext(m: Params, i: nat)
    requires Sorted(m, StrLess) && i < |m|
    ensures Add(m[..i], StrLess, m[i].key, m[i].value) == m[..i + 1]
  {
    StrLessIsOrder();
    assert m[..i + 1] == m[..i] + [m[i]];
    AddLast(m[..i], StrLess, m[i]);
  }

  lemma {:induction false} FlatIsNulFree(m: Params)
    requires forall e :: e in m ==> CleanEntry(e)
    ensures '\0' !in Flat(m)
  {
    if m != [] {
      assert m[0] in m;
      FlatIsNulFree(m[1..]);
    }
  }

  /** unflatten(flatten(m)) == m, for every reachable map. */
  lemma RoundTrip(m: Params)
    requires Clean(m)
    ensures Parse(CString(Flat(m)), []) == m
  {
    FlatIsNulFree(m);
    ParseOfFlat(m, 0);
    assert m[0..] == m && m[..0] == [];
  }

  // ----- Every text that may be unflattened -----

  /** Any keys and values, each pair closed by a semicolon. */
  function PairsText(ps: Params): string {
    if ps == [] then "" else ps[0].key + ['='] + (ps[0].value + [';'] + PairsText(ps[1..]))
  }

  lemma {:induction false} PairsAreAdded(before: Params, ps: Params, tail: string)
    requires forall e :: e in ps ==> CleanEntry(e)
    ensures Parse(PairsText(ps) + tail, AddAll(before, StrLess)) == Parse(tail, AddAll(before + ps, StrLess))
    decreases |ps|
  {
    hide Parse, AddAll, Add, CleanEntry;
    if ps == [] {
      assert PairsText(ps) + tail == tail && before + ps == before;
    } else {
      var e, rest := ps[0], PairsText(ps[1..]) + tail;
      assert ps == [e] + ps[1..] && e in ps;
      PairsTextFirst(e, ps[1..], tail);
      hide PairsText;
      ParseMore(e.key, e.value, rest, AddAll(before, StrLess));
      AddAllLast(before, e);
      assert before + ps == before + [e] + ps[1..];
      PairsAreAdded(before + [e], ps[1..], tail);
    }
  }

  lemma AddAllLast(es: Params, e: Entry<string, string>)
    ensures AddAll(es + [e], StrLess) == Add(AddAll(es, StrLess), StrLess, e.key, e.value)
  {
    assert (es + [e])[..|es|] == es;
  }

  ghost predicate IsPairs(text: string, ps: Params, last: Option<Entry<string, string>>, tail: string) {
    && text == PairsText(ps) + (if last.Some? then last.value.key + ['='] + last.value.value else tail)
    && (forall e :: e in ps ==> CleanEntry(e)) && (last.Some? ==> CleanEntry(last.value)) && '=' !in tail
  }

  /** The pairs of a text are added one after the other, the last one too if it is not closed; what follows the
      last semicolon without a '=' in it is dropped. */
  lemma UnflattenAdds(text: string, ps: Params, last: Option<Entry<string, string>>, tail: string)
    requires IsPairs(text, ps, last, tail)
    ensures Parse(text, []) == AddAll(ps + (if last.Some? then [last.value] else []), StrLess)
  {
    hide Parse, AddAll, Add;
    var rest := if last.Some? then last.value.key + ['='] + last.value.value else tail;
    NothingIsAdded();
    PairsAreAdded([], ps, rest);
    assert [] + ps == ps && ps + [] == ps;
    if last.Some? {
      ParseLast(last.value.key, last.value.value, AddAll(ps, StrLess));
      AddAllLast(ps, last.value);
    } else {
      TailIsDropped(tail, AddAll(ps, StrLess));
    }
  }

  lemma NothingIsAdded()
    ensures AddAll<string, string>([], StrLess) == []
  {
  }

  lemma TailIsDropped(tail: string, m: Params)
    requires '=' !in tail
    ensures Parse(tail, m) == m
  {
    StrchrFindsFirst(tail, '=');
  }

  /** Every text is of that form. */
  lemma EveryTextIsPairs(text: string)
    requires '\0' !in text
    ensures exists ps, last, tail :: IsPairs(text, ps, last, tail)
  {
    var ps, last, tail := TextAsPairs(text);
    assert IsPairs(text, ps, last, tail);
  }

  lemma {:induction false} TextAsPairs(text: string) returns (ps: Params, last: Option<Entry<string, string>>, tail: string)
    requires '\0' !in text
    ensures text == PairsText(ps) + if last.Some? then last.value.key + ['='] + last.value.value else tail
    ensures (forall e :: e in ps ==> CleanEntry(e)) && (last.Some? ==> CleanEntry(last.value)) && '=' !in tail
    decreases |text|
  {
    hide Parse, PairsText, CleanEntry;
    ps, last, tail := [], None, text;
    StrchrFindsFirst(text, '=');
    var e := Strchr(text, '=');
    NoPairsText();
    if e < |text| {
      ParseUnfolds(text, []);
      SplitAtChar(text, e);
      var key, rest := text[..e], text[e + 1..];
      var s := Strchr(rest, ';');
      tail := "";
      if s == |rest| {
        assert rest[..s] == rest;
        last := Some(Entry(key, rest));
      } else {
        SplitAtChar(rest, s);
        var value := rest[..s];
        var more;
        more, last, tail := TextAsPairs(rest[s + 1..]);
        PairsTextFirst(Entry(key, value), more, if last.Some? then last.value.key + ['='] + last.value.value else tail);
        ps := [Entry(key, value)] + more;
      }
    }
  }

  lemma NoPairsText()
    ensures PairsText([]) == ""
  {
  }

  lemma SplitAtChar(text: string, i: nat)
    requires i < |text|
    ensures text == text[..i] + [text[i]] + text[i + 1..]
  {
  }

  lemma PairsTextFirst(e: Entry<string, string>, ps: Params, rest: string)
    ensures PairsText([e] + ps) + rest == e.key + ['='] + (e.value + [';'] + (PairsText(ps) + rest))
  {
    assert ([e] + ps)[1..] == ps;
  }

  // ----- Sizes -----

  datatype Size = Size(width: int, height: int)

  predicate Is32Bit(n: int) {
    LONG_MIN <= n <= LONG_MAX
  }

  predicate SizeOk(s: Size) {
    Is32Bit(s.width) && Is32Bit(s.height)
  }

  /** sprintf("%dx%d"). */
  function PrintSize(s: Size): string {
    PrintInt(s.width) + "x" + PrintInt(s.height)
  }

  /** parse_pair: None for -1, otherwise both numbers and the index of endptr. */
  function ParsePair(str: string, delim: char): (r: Option<(int, int, nat)>)
    ensures r.Some? ==> 0 < r.value.2 <= |str|
  {
    var (w, end) := Strtol(str);
    if end == |str| || str[end] != delim then None
    else
      var (h, n) := Strtol(str[end + 1..]);
      Some((w, h, end + 1 + n))
  }

  lemma PrintedIntHasNo(n: int, c: char)
    requires !IsDigit(c) && c != '-'
    ensures c !in PrintInt(n)
  {
    DigitsAreDigits(if n < 0 then -n else n);
  }

  lemma PrintedWidthIsRead(w: int, h: string, rest: string, str: string)
    requires Is32Bit(w) && str == PrintInt(w) + "x" + h + rest
    ensures Strtol(str) == (w, |PrintInt(w)|)
  {
    assert str == PrintInt(w) + ("x" + h + rest);
    StrtolReadsPrintInt(w, "x" + h + rest);
  }

  lemma PrintedHeightIsRead(w: string, h: int, rest: string, str: string)
    requires Is32Bit(h) && (rest != "" ==> !IsDigit(rest[0]))
    requires str == w + "x" + PrintInt(h) + rest
    ensures |w| < |str| && str[|w|] == 'x'
    ensures Strtol(str[|w| + 1..]) == (h, |PrintInt(h)|)
  {
    assert str[|w| + 1..] == PrintInt(h) + rest;
    StrtolReadsPrintInt(h, rest);
  }

  lemma ParsePairIs(str: string, delim: char, w: int, end: nat, h: int, n: nat)
    requires end < |str| && str[end] == delim
    requires Strtol(str) == (w, end) && Strtol(str[end + 1..]) == (h, n)
    ensures ParsePair(str, delim) == Some((w, h, end + 1 + n))
  {
    hide Strtol;
  }

  /** A printed size followed by anything but a digit parses to the size, up to that point. */
  lemma ParsePairOfPrinted(s: Size, rest: string, str: string)
    requires SizeOk(s) && (rest != "" ==> !IsDigit(rest[0]))
    requires str == PrintInt(s.width) + "x" + PrintInt(s.height) + rest
    ensures ParsePair(str, 'x') == Some((s.width, s.height, |str| - |rest|))
  {
    hide Strtol, PrintInt;
    PrintedWidthIsRead(s.width, PrintInt(s.height), rest, str);
    PrintedHeightIsRead(PrintInt(s.width), s.height, rest, str);
    ParsePairIs(str, 'x', s.width, |PrintInt(s.width)|, s.height, |PrintInt(s.height)|);
  }

  /** Of any text: the delimiter has to follow the first number at once; what follows it is a number or stands
      for zero. */
  lemma ParsePairReads(str: string, delim: char, spaces: string, sign: string, digits: string, rest: string)
    requires IsNumber(str, spaces, sign, digits, rest)
    ensures var end := |spaces| + |sign| + |digits|;
            && end <= |str|
            && ParsePair(str, delim) ==
               if end == |str| || str[end] != delim then None
               else
                 Some((Nearest(if sign == "-" then -DigitsValue(digits) else DigitsValue(digits)),
                       Strtol(str[end + 1..]).0, end + 1 + Strtol(str[end + 1..]).1))
  {
    hide *;
    StrtolReadsNumber(str, spaces, sign, digits, rest);
    var end := |spaces| + |sign| + |digits|;
    NumberIsShorter(str, spaces, sign, digits, rest);
    ParsePairAfter(str, delim, Nearest(if sign == "-" then -DigitsValue(digits) else DigitsValue(digits)), end);
  }

  lemma NumberIsShorter(str: string, spaces: string, sign: string, digits: string, rest: string)
    requires IsNumber(str, spaces, sign, digits, rest)
    ensures |spaces| + |sign| + |digits| <= |str|
  {
  }

  lemma ParsePairAfter(str: string, delim: char, w: int, end: nat)
    requires end <= |str| && Strtol(str) == (w, end)
    ensures ParsePair(str, delim) ==
            if end == |str| || str[end] != delim then None
            else Some((w, Strtol(str[end + 1..]).0, end + 1 + Strtol(str[end + 1..]).1))
  {
    hide Strtol;
  }

  lemma RestOfNumber(str: string, spaces: string, sign: string, digits: string, rest: string)
    requires IsNumber(str, spaces, sign, digits, rest)
    ensures var end := |spaces| + |sign| + |digits|;
            && end + |rest| == |str|
            && (rest != "" ==> str[end] == rest[0] && str[end + 1..] == rest[1..])
  {
    hide AllSpaces, AllDigits;
    var end := |spaces| + |sign| + |digits|;
    if rest != "" {
      assert str[end + 1..] == rest[1..];
    }
  }

  /** A text without a number in front is refused unless the delimiter comes first. */
  lemma ParsePairOfNoNumber(str: string, delim: char)
    requires Strtol(str).1 == 0
    ensures ParsePair(str, delim) ==
            if str == "" || str[0] != delim then None else Some((0, Strtol(str[1..]).0, 1 + Strtol(str[1..]).1))
  {
    StrtolReadsNothing(str);
    hide Strtol;
  }

  /** What parseSizesList pushes from the text that is left. */
  function ParseSizes(text: string): seq<Size>
    decreases |text|
  {
    var p := ParsePair(text, 'x');
    if p.None? then []
    else
      var end := p.value.2;
      if end < |text| && text[end] != ',' then []
      else [Size(p.value.0, p.value.1)] + if end == |text| then [] else ParseSizes(text[end + 1..])
  }

  function JoinSizes(sizes: seq<Size>): string {
    if sizes == [] then ""
    else PrintSize(sizes[0]) + if |sizes| == 1 then "" else "," + JoinSizes(sizes[1..])
  }

  lemma ParseSizesStep(s: Size, rest: string, str: string)
    requires SizeOk(s) && (rest == "" || rest[0] == ',')
    requires str == PrintInt(s.width) + "x" + PrintInt(s.height) + rest
    ensures ParseSizes(str) == [s] + if rest == "" then [] else ParseSizes(rest[1..])
  {
    hide Strtol, PrintInt, ParsePair, ParseSizes, SizeOk;
    ParsePairOfPrinted(s, rest, str);
    var end := |str| - |rest|;
    BehindSize(PrintInt(s.width) + "x" + PrintInt(s.height), rest, str);
    ParseSizesAfter(str, end, s);
    if rest != "" {
      assert str[end + 1..] == rest[1..];
    }
  }

  lemma ParseSizesAfter(str: string, end: nat, s: Size)
    requires ParsePair(str, 'x') == Some((s.width, s.height, end)) && (end == |str| || str[end] == ',')
    ensures ParseSizes(str) == [s] + if end == |str| then [] else ParseSizes(str[end + 1..])
  {
    hide ParsePair;
  }

  lemma BehindSize(size: string, rest: string, str: string)
    requires str == size + rest
    ensures rest != "" ==> str[|str| - |rest|] == rest[0] && str[|str| - |rest| + 1..] == rest[1..]
  {
  }

  /** Parsing a comma-joined list of sizes returns the list. */
  lemma {:induction false} ParseOfJoinedSizes(sizes: seq<Size>)
    requires sizes != [] && forall i :: 0 <= i < |sizes| ==> SizeOk(sizes[i])
    ensures ParseSizes(JoinSizes(sizes)) == sizes
  {
    hide PrintInt, ParseSizes;
    if |sizes| == 1 {
      ParseSizesStep(sizes[0], "", JoinSizes(sizes));
    } else {
      ParseOfJoinedSizes(sizes[1..]);
      ParseSizesStep(sizes[0], "," + JoinSizes(sizes[1..]), JoinSizes(sizes));
      assert ("," + JoinSizes(sizes[1..]))[1..] == JoinSizes(sizes[1..]);
    }
  }

  lemma JoinUnfolds(sizes: seq<Size>, tail: string)
    requires sizes != []
    ensures JoinSizes(sizes) + tail == PrintInt(sizes[0].width) + "x" + PrintInt(sizes[0].height)
         + if |sizes| == 1 then tail else "," + (JoinSizes(sizes[1..]) + tail)
  {
    hide PrintInt;
    if |sizes| > 1 {
      JoinsOn(PrintSize(sizes[0]), JoinSizes(sizes[1..]), tail);
    }
  }

  lemma JoinsOn(size: string, more: string, tail: string)
    ensures size + ("," + more) + tail == size + ("," + (more + tail))
  {
  }

  /** A list that goes on with something that is not a size yields the sizes before it. */
  lemma {:induction false} ParseStopsAtBadSize(sizes: seq<Size>, bad: string)
    requires sizes != [] && (forall i :: 0 <= i < |sizes| ==> SizeOk(sizes[i])) && ParsePair(bad, 'x').None?
    ensures ParseSizes(JoinSizes(sizes) + ("," + bad)) == sizes
  {
    hide PrintInt, ParseSizes, JoinSizes, ParsePair;
    JoinUnfolds(sizes, "," + bad);
    var rest := if |sizes| == 1 then "," + bad else "," + (JoinSizes(sizes[1..]) + ("," + bad));
    ParseSizesStep(sizes[0], rest, JoinSizes(sizes) + ("," + bad));
    if |sizes| == 1 {
      assert rest[1..] == bad;
      BadSizeIsNothing(bad);
    } else {
      assert rest[1..] == JoinSizes(sizes[1..]) + ("," + bad);
      ParseStopsAtBadSize(sizes[1..], bad);
    }
    assert sizes == [sizes[0]] + sizes[1..];
  }

  lemma BadSizeIsNothing(bad: string)
    requires ParsePair(bad, 'x').None?
    ensures ParseSizes(bad) == []
  {
    hide ParsePair;
  }

  /** A size that is followed by anything but a comma is lost. */
  lemma {:induction false} ParseDropsUnseparated(sizes: seq<Size>, rest: string)
    requires sizes != [] && forall i :: 0 <= i < |sizes| ==> SizeOk(sizes[i])
    requires rest != "" && rest[0] != ',' && !IsDigit(rest[0])
    ensures ParseSizes(JoinSizes(sizes) + rest) == sizes[..|sizes| - 1]
  {
    hide PrintInt, ParseSizes, JoinSizes, ParsePair;
    JoinUnfolds(sizes, rest);
    if |sizes| == 1 {
      LostSize(sizes[0], rest, JoinSizes(sizes) + rest);
    } else {
      var more := "," + (JoinSizes(sizes[1..]) + rest);
      ParseSizesStep(sizes[0], more, JoinSizes(sizes) + rest);
      assert more[1..] == JoinSizes(sizes[1..]) + rest;
      ParseDropsUnseparated(sizes[1..], rest);
      assert [sizes[0]] + sizes[1..][..|sizes| - 2] == sizes[..|sizes| - 1];
    }
  }

  lemma LostSize(s: Size, rest: string, str: string)
    requires SizeOk(s) && rest != "" && rest[0] != ',' && !IsDigit(rest[0])
    requires str == PrintInt(s.width) + "x" + PrintInt(s.height) + rest
    ensures ParseSizes(str) == []
  {
    hide PrintInt, ParsePair;
    ParsePairOfPrinted(s, rest, str);
    BehindSize(PrintInt(s.width) + "x" + PrintInt(s.height), rest, str);
  }
}
