/** The bounded percent-encoding of gps/loc_api/libloc_api_50001/LocEngAdapter.cpp:206-255. */
module UrlEscape {
  import opened Wrappers
  import opened CStrings

  datatype Encoding = Encoding(ch: char, code: string)

  const ENCODINGS: seq<Encoding> :=
    [Encoding('/', "%2F"), Encoding('+', "%2B"), Encoding('|', "%7C"), Encoding('%', "%25")]
  const NUM_CHARS_IN_CODE := 3

  /** The index of the encoding of c, or the number of encodings when c has none. */
  function EscapeIndex(c: char, from: nat): (i: nat)
    requires from <= |ENCODINGS|
    ensures from <= i <= |ENCODINGS|
    ensures i < |ENCODINGS| ==> ENCODINGS[i].ch == c
    ensures forall k :: from <= k < i ==> ENCODINGS[k].ch != c
    decreases |ENCODINGS| - from
  {
    if from == |ENCODINGS| || ENCODINGS[from].ch == c then from else EscapeIndex(c, from + 1)
  }

  function Code(c: char): (code: string)
    ensures |code| == 1 || |code| == NUM_CHARS_IN_CODE
  {
    var i := EscapeIndex(c, 0);
    if i == |ENCODINGS| then [c] else ENCODINGS[i].code
  }

  function Encode(s: string): string {
    if s == "" then "" else Encode(s[..|s| - 1]) + Code(s[|s| - 1])
  }

  // ----- Section 2.1 of RFC 3986, independently of the table -----

  predicate Reserved(c: char) {
    c == '/' || c == '+' || c == '|' || c == '%'
  }

  function HexDigit(n: nat): char
    requires n < 16
  {
    "0123456789ABCDEF"[n]
  }

  function HexValue(c: char): Option<nat> {
    if '0' <= c <= '9' then Some(c as int - '0' as int)
    else if 'A' <= c <= 'F' then Some(c as int - 'A' as int + 10)
    else None
  }

  lemma CodeIsPercentEncoding(c: char)
    ensures Code(c) == if Reserved(c) then ['%', HexDigit(c as int / 16), HexDigit(c as int % 16)] else [c]
  {
    assert ENCODINGS[0].ch == '/' && ENCODINGS[1].ch == '+' && ENCODINGS[2].ch == '|' && ENCODINGS[3].ch == '%';
  }

  /** Undoes percent-encoding; a '%' without two digits of a byte after it is malformed. */
  function Decode(s: string): Option<string> {
    if s == "" then Some("")
    else if s[0] != '%' then Prefix(s[0], Decode(s[1..]))
    else if |s| < 3 || HexValue(s[1]).None? || HexValue(s[2]).None? then None
    else Prefix((HexValue(s[1]).value * 16 + HexValue(s[2]).value) as char, Decode(s[3..]))
  }

  function Prefix(c: char, tail: Option<string>): Option<string> {
    if tail.None? then None else Some([c] + tail.value)
  }

  lemma {:induction false} EncodeFirst(s: string)
    requires s != ""
    ensures Encode(s) == Code(s[0]) + Encode(s[1..])
  {
    if |s| > 1 {
      var front, last := s[..|s| - 1], s[|s| - 1];
      EncodeFirst(front);
      assert front[1..] == s[1..][..|s| - 2];
    }
  }

  lemma DecodeOfCode(c: char, rest: string)
    ensures Decode(Code(c) + rest) == Prefix(c, Decode(rest))
  {
    CodeIsPercentEncoding(c);
    if Reserved(c) {
      var s := Code(c) + rest;
      assert s[0] == '%' && s[1] == HexDigit(c as int / 16) && s[2] == HexDigit(c as int % 16);
      assert s[3..] == rest;
    } else {
      assert (Code(c) + rest)[1..] == rest;
    }
  }

  lemma {:induction false} DecodeOfEncode(s: string)
    ensures Decode(Encode(s)) == Some(s)
  {
    if s != "" {
      EncodeFirst(s);
      DecodeOfCode(s[0], Encode(s[1..]));
      DecodeOfEncode(s[1..]);
      assert s == [s[0]] + s[1..];
    }
  }

  /** No separator survives, and no NUL appears. */
  lemma {:induction false} EncodedIsClean(s: string)
    ensures forall c :: c in Encode(s) ==> c != '/' && c != '+' && c != '|'
    ensures '\0' !in s ==> '\0' !in Encode(s)
  {
    if s != "" {
      EncodedIsClean(s[..|s| - 1]);
      CodeIsPercentEncoding(s[|s| - 1]);
    }
  }

  // ----- How much of the text fits -----

  /** The number of leading characters whose encoding fits in room. */
  function Kept(s: string, room: int): (n: nat)
    ensures n <= |s|
  {
    if s == "" || |Code(s[0])| > room then 0 else 1 + Kept(s[1..], room - |Code(s[0])|)
  }

  lemma {:induction false} KeptIsGreatest(s: string, room: nat, k: nat)
    requires k <= |s|
    ensures |Encode(s[..k])| <= room <==> k <= Kept(s, room)
  {
    if k > 0 {
      EncodeFirst(s[..k]);
      assert s[..k][1..] == s[1..][..k - 1];
      if |Code(s[0])| <= room {
        KeptIsGreatest(s[1..], room - |Code(s[0])|, k - 1);
      }
    }
  }

  /** What a buffer of the given size ends up holding. */
  function Bounded(text: string, size: nat): string
    requires size > 0
  {
    Encode(text[..Kept(text, size - 1)])
  }

  /** The result fits with its NUL, holds no separator, is never cut inside an escape, and stands for the
      longest prefix of the text for which that is possible; nothing is lost exactly when all of it fits. */
  lemma BoundedIsLongestPrefix(text: string, size: nat)
    requires size > 0 && '\0' !in text
    ensures var r := Bounded(text, size);
            && |r| < size && '\0' !in r && (forall c :: c in r ==> c != '/' && c != '+' && c != '|')
            && (exists n :: 0 <= n <= |text| && Decode(r) == Some(text[..n])
                  && forall k :: n < k <= |text| ==> |Encode(text[..k])| >= size)
            && (Decode(r) == Some(text) <==> |Encode(text)| < size)
  {
    var n := Kept(text, size - 1);
    KeptIsGreatest(text, size - 1, n);
    EncodedIsClean(text[..n]);
    DecodeOfEncode(text[..n]);
    forall k | n < k <= |text|
      ensures |Encode(text[..k])| >= size
    {
      KeptIsGreatest(text, size - 1, k);
    }
    KeptIsGreatest(text, size - 1, |text|);
    assert text[..|text|] == text;
  }

  // ----- The loops -----

  /** Lines 223-227. */
  method FindEncoding(c: char) returns (escchar: nat)
    ensures escchar == EscapeIndex(c, 0)
  {
    escchar := 0;
    while escchar < |ENCODINGS| && ENCODINGS[escchar].ch != c
      invariant escchar <= |ENCODINGS|
      invariant EscapeIndex(c, 0) == EscapeIndex(c, escchar)
    {
      escchar := escchar + 1;
    }
  }

  lemma EncodeStep(text: string, i: nat)
    requires i < |text|
    ensures Encode(text[..i + 1]) == Encode(text[..i]) + Code(text[i])
  {
    assert text[..i + 1][..i] == text[..i];
  }

  /** The string ends at a NUL, unless there is none. */
  lemma CStringEnds(s: string)
    ensures forall k :: 0 <= k < |s| && k <= |CString(s)| ==> (s[k] == '\0' <==> k == |CString(s)|)
  {
    StrchrFindsFirst(s, '\0');
  }

  lemma KeptIsReached(text: string, size: nat, n: nat)
    requires size > 0 && n <= |text| && |Encode(text[..n])| < size
    requires n == |text| || |Encode(text[..n])| + |Code(text[n])| >= size
    ensures n == Kept(text, size - 1)
  {
    KeptIsGreatest(text, size - 1, n);
    if n < |text| {
      EncodeStep(text, n);
      KeptIsGreatest(text, size - 1, n + 1);
    }
  }

  /** Lines 244-246. */
  method WriteCode(buffer: array<char>, start: nat, escchar: nat)
    requires escchar < |ENCODINGS| && start + NUM_CHARS_IN_CODE < buffer.Length
    modifies buffer
    ensures buffer[..start + NUM_CHARS_IN_CODE] == old(buffer[..start]) + ENCODINGS[escchar].code
  {
    var outpos, codepos := start, 0;
    while outpos < buffer.Length - 1 && codepos < NUM_CHARS_IN_CODE
      invariant codepos <= NUM_CHARS_IN_CODE && outpos == start + codepos
      invariant buffer[..outpos] == old(buffer[..start]) + ENCODINGS[escchar].code[..codepos]
    {
      buffer[outpos] := ENCODINGS[escchar].code[codepos];
      outpos, codepos := outpos + 1, codepos + 1;
    }
  }

  /** Lines 221-248. */
  method FillBuffer(value: array<char>, size: nat, buffer: array<char>) returns (outpos: nat)
    requires 0 < size <= value.Length && buffer.Length == size && buffer != value
    modifies buffer
    ensures outpos < size && buffer[..outpos] == Bounded(CString(value[..]), size)
  {
    hide Encode, Kept, CString;
    ghost var text := CString(value[..]);
    CStringEnds(value[..]);
    var inpos := 0;
    outpos := 0;
    assert text[..0] == "" && buffer[..0] == "";
    EncodeNothing();
    while value[inpos] != '\0' && outpos < size - 1
      invariant inpos <= outpos < size && inpos <= |text|
      invariant buffer[..outpos] == Encode(text[..inpos])
      decreases size - outpos
    {
      EncodeStep(text, inpos);
      var escchar := FindEncoding(value[inpos]);
      if escchar == |ENCODINGS| {
        buffer[outpos] := value[inpos];
        outpos, inpos := outpos + 1, inpos + 1;
        continue;
      }
      if outpos + NUM_CHARS_IN_CODE >= size {
        break;
      }
      WriteCode(buffer, outpos, escchar);
      outpos, inpos := outpos + NUM_CHARS_IN_CODE, inpos + 1;
    }
    KeptIsReached(text, size, inpos);
  }

  lemma EncodeNothing()
    ensures Encode("") == ""
  {
  }

  method EncodeInPlace(value: array<char>, size: nat)
    requires 0 < size <= value.Length
    modifies value
    ensures var r := Bounded(CString(old(value[..])), size);
            |r| < size && value[..] == r + ['\0'] + old(value[..])[|r| + 1..]
  {
    hide Bounded, CString;
    var buffer := new char[size];
    var outpos: int := FillBuffer(value, size, buffer);
    ghost var r, was := buffer[..outpos], value[..];
    value[outpos] := '\0';
    outpos := outpos - 1;
    while outpos >= 0
      invariant -1 <= outpos < |r| < value.Length
      invariant forall k :: outpos < k < |r| ==> value[k] == r[k]
      invariant value[|r|] == '\0' && forall k :: |r| < k < value.Length ==> value[k] == was[k]
      invariant forall k :: 0 <= k < |r| ==> buffer[k] == r[k]
      decreases outpos
    {
      value[outpos] := buffer[outpos];
      outpos := outpos - 1;
    }
    assert value[..] == r + ['\0'] + was[|r| + 1..];
  }
}
