/** The CameraParameters class with its loops, over the functions of FlatParams. */
module CameraParametersClass {
  import opened Wrappers
  import opened KeyedVectors
  import opened CStrings
  import opened FlatParams

  const KEY_PREVIEW_SIZE := "preview-size"
  const KEY_VIDEO_SIZE := "video-size"
  const KEY_PICTURE_SIZE := "picture-size"
  const HDR_NEED_1X := "hdr-need-1x"

  predicate Rejected(s: string) {
    '=' in s || ';' in s
  }

  /** get: NULL for a missing key and for an empty value alike. */
  function Lookup(m: Params, key: string): Option<string> {
    var v := ValueFor(m, key);
    if v.Some? && v.value != "" then v else None
  }

  /** set, for a key and a value that are not NULL. */
  function SetIn(m: Params, qcom: bool, key: string, value: string): Params {
    if Rejected(key) || Rejected(value) then m
    else
      var n := if qcom && Lookup(m, HDR_NEED_1X).None? then Add(m, StrLess, HDR_NEED_1X, "false") else m;
      Add(n, StrLess, key, value)
  }

  lemma SetKeepsClean(m: Params, qcom: bool, key: string, value: string)
    requires Clean(m) && '\0' !in key && '\0' !in value
    ensures Clean(SetIn(m, qcom, key, value))
    ensures !Rejected(key) && !Rejected(value) ==> ValueFor(SetIn(m, qcom, key, value), key) == Some(value)
  {
    if !Rejected(key) && !Rejected(value) {
      var n := if qcom && Lookup(m, HDR_NEED_1X).None? then Add(m, StrLess, HDR_NEED_1X, "false") else m;
      AddKeepsClean(m, HDR_NEED_1X, "false");
      AddKeepsClean(n, key, value);
      StrLessIsOrder();
      AddThenFind(n, StrLess, key, value, key);
    }
  }

  /** Exactly the pairs with a '=' or a ';' in them are refused. The others are found under their key; every other
      key finds what it did, but that qcom hardware gets its HDR default if it has none. */
  lemma SetDoes(m: Params, qcom: bool, key: string, value: string, other: string)
    requires Clean(m) && '\0' !in key && '\0' !in value
    ensures var n := SetIn(m, qcom, key, value);
            if '=' in key || ';' in key || '=' in value || ';' in value then n == m
            else
              ValueFor(n, other) ==
              if other == key then Some(value)
              else if qcom && other == HDR_NEED_1X && (ValueFor(m, other) == None || ValueFor(m, other) == Some("")) then Some("false")
              else ValueFor(m, other)
  {
    hide Clean, Add, ValueFor;
    if !Rejected(key) && !Rejected(value) {
      var n := if qcom && Lookup(m, HDR_NEED_1X).None? then Add(m, StrLess, HDR_NEED_1X, "false") else m;
      AddHdrKeepsClean(m);
      CleanIsSorted(m);
      CleanIsSorted(n);
      StrLessIsOrder();
      AddThenFind(m, StrLess, HDR_NEED_1X, "false", other);
      AddThenFind(n, StrLess, key, value, other);
    }
  }

  lemma CleanIsSorted(m: Params)
    requires Clean(m)
    ensures Sorted(m, StrLess)
  {
  }

  /** getPreviewSize and its siblings: (-1, -1) for a missing key or an unparsable value. */
  function SizeIn(m: Params, key: string): (int, int) {
    var p := Lookup(m, key);
    if p.None? then (-1, -1)
    else
      var r := ParsePair(p.value, 'x');
      if r.None? then (-1, -1) else (r.value.0, r.value.1)
  }

  /** Setting a size and reading it back returns it, for any pair of 32-bit integers. */
  lemma SetSizeThenGet(m: Params, qcom: bool, key: string, s: Size)
    requires Clean(m) && !Rejected(key) && '\0' !in key && SizeOk(s)
    ensures SizeIn(SetIn(m, qcom, key, PrintSize(s)), key) == (s.width, s.height)
  {
    PrintedSizeIsPlain(s);
    SetKeepsClean(m, qcom, key, PrintSize(s));
    assert PrintSize(s) == PrintInt(s.width) + "x" + PrintInt(s.height) + "";
    ParsePairOfPrinted(s, "", PrintSize(s));
  }

  /** A size that is missing, or whose number is not followed by an 'x', reads as (-1, -1); otherwise the two
      numbers are read, the second as zero if it is missing. */
  lemma SizeInReads(m: Params, key: string, spaces: string, sign: string, digits: string, rest: string)
    requires ValueFor(m, key).Some? ==> IsNumber(ValueFor(m, key).value, spaces, sign, digits, rest)
    ensures ValueFor(m, key).None? ==> SizeIn(m, key) == (-1, -1)
    ensures ValueFor(m, key).Some? ==>
              var text, end := ValueFor(m, key).value, |spaces| + |sign| + |digits|;
              && end <= |text|
              && SizeIn(m, key) ==
                 if end == |text| || text[end] != 'x' then (-1, -1)
                 else (Nearest(if sign == "-" then -DigitsValue(digits) else DigitsValue(digits)), Strtol(text[end + 1..]).0)
  {
    hide Strtol, ParsePair, Nearest, DigitsValue;
    if ValueFor(m, key).Some? {
      ParsePairReads(ValueFor(m, key).value, 'x', spaces, sign, digits, rest);
      NumberIsNotEmpty(ValueFor(m, key).value, spaces, sign, digits, rest);
    }
    hide IsNumber, ValueFor;
  }

  lemma NumberIsNotEmpty(text: string, spaces: string, sign: string, digits: string, rest: string)
    requires IsNumber(text, spaces, sign, digits, rest)
    ensures text != ""
  {
  }

  /** The same for an empty value or one that does not start with a number. */
  lemma SizeInOfNoNumber(m: Params, key: string)
    requires ValueFor(m, key).Some? && Strtol(ValueFor(m, key).value).1 == 0
    ensures var v := ValueFor(m, key).value;
            SizeIn(m, key) == if v == "" || v[0] != 'x' then (-1, -1) else (0, Strtol(v[1..]).0)
  {
    hide Strtol, ParsePair;
    ParsePairOfNoNumber(ValueFor(m, key).value, 'x');
  }

  lemma LookupAfterAdd(m: Params, key: string, value: string, other: string)
    requires Clean(m) && other != key
    ensures Lookup(Add(m, StrLess, key, value), other) == Lookup(m, other)
  {
    StrLessIsOrder();
    AddThenFind(m, StrLess, key, value, other);
  }

  /** Setting one size changes no other. */
  lemma SetSizeLeavesOthers(m: Params, qcom: bool, key: string, s: Size, other: string)
    requires Clean(m) && !Rejected(key) && '\0' !in key && other != key && other != HDR_NEED_1X
    ensures SizeIn(SetIn(m, qcom, key, PrintSize(s)), other) == SizeIn(m, other)
  {
    hide Clean, Add, PrintSize, ParsePair, ValueFor, Rejected;
    PrintedSizeIsPlain(s);
    HdrIsPlain();
    var n := if qcom && Lookup(m, HDR_NEED_1X).None? then Add(m, StrLess, HDR_NEED_1X, "false") else m;
    LookupAfterAdd(m, HDR_NEED_1X, "false", other);
    AddHdrKeepsClean(m);
    LookupAfterAdd(n, key, PrintSize(s), other);
  }

  lemma AddHdrKeepsClean(m: Params)
    requires Clean(m)
    ensures Clean(Add(m, StrLess, HDR_NEED_1X, "false"))
  {
    AddKeepsClean(m, HDR_NEED_1X, "false");
  }

  lemma HdrIsPlain()
    ensures !Rejected(HDR_NEED_1X) && !Rejected("false")
  {
  }

  lemma SizeKeysArePlain()
    ensures !Rejected(KEY_PREVIEW_SIZE) && !Rejected(KEY_VIDEO_SIZE) && !Rejected(KEY_PICTURE_SIZE)
    ensures '\0' !in KEY_PREVIEW_SIZE && '\0' !in KEY_VIDEO_SIZE && '\0' !in KEY_PICTURE_SIZE
    ensures KEY_PREVIEW_SIZE != KEY_VIDEO_SIZE && KEY_PREVIEW_SIZE != KEY_PICTURE_SIZE && KEY_VIDEO_SIZE != KEY_PICTURE_SIZE
    ensures HDR_NEED_1X != KEY_PREVIEW_SIZE && HDR_NEED_1X != KEY_VIDEO_SIZE && HDR_NEED_1X != KEY_PICTURE_SIZE
  {
    assert KEY_PREVIEW_SIZE[1] != KEY_PICTURE_SIZE[1];
  }

  lemma PrintedSizeIsPlain(s: Size)
    ensures !Rejected(PrintSize(s)) && '\0' !in PrintSize(s) && PrintSize(s) != ""
  {
    var w, h := s.width, s.height;
    PrintedIntHasNo(w, '=');
    PrintedIntHasNo(w, ';');
    PrintedIntHasNo(w, '\0');
    PrintedIntHasNo(h, '=');
    PrintedIntHasNo(h, ';');
    PrintedIntHasNo(h, '\0');
  }

  /** parseSizesList, lines 340-363. */
  method ParseSizesList(sizesStr: string) returns (sizes: seq<Size>)
    ensures sizes == ParseSizes(sizesStr)
  {
    hide ParsePair;
    sizes := [];
    var rest := sizesStr;
    while true
      invariant sizes + ParseSizes(rest) == ParseSizes(sizesStr)
      decreases |rest|
    {
      var p := ParsePair(rest, 'x');
      if p.None? {
        return;
      }
      var end := p.value.2;
      if end < |rest| && rest[end] != ',' {
        return;
      }
      sizes := sizes + [Size(p.value.0, p.value.1)];
      if end == |rest| {
        return;
      }
      rest := rest[end + 1..];
    }
  }

  // ----- Every run of calls -----

  datatype Call = Set(key: Option<string>, value: Option<string>) | Unflatten(text: string) | Remove(item: string)

  function Do(m: Params, qcom: bool, call: Call): Params {
    match call
    case Set(key, value) => if key.None? || value.None? then m else SetIn(m, qcom, CString(key.value), CString(value.value))
    case Unflatten(text) => Parse(CString(text), [])
    case Remove(item) => KeyedVectors.Remove(m, CString(item))
  }

  function Run(qcom: bool, calls: seq<Call>): Params {
    if calls == [] then [] else Do(Run(qcom, calls[..|calls| - 1]), qcom, calls[|calls| - 1])
  }

  lemma RemoveKeepsClean(m: Params, key: string)
    requires Clean(m)
    ensures Clean(KeyedVectors.Remove(m, key))
  {
    StrLessIsOrder();
    RemoveKeeps(m, StrLess, key);
  }

  lemma {:induction false} RunKeepsClean(qcom: bool, calls: seq<Call>)
    ensures Clean(Run(qcom, calls))
  {
    if calls != [] {
      hide Clean, SetIn, Parse, CString;
      var m := Run(qcom, calls[..|calls| - 1]);
      RunKeepsClean(qcom, calls[..|calls| - 1]);
      match calls[|calls| - 1] {
        case Set(key, value) =>
          if key.Some? && value.Some? {
            SetKeepsClean(m, qcom, CString(key.value), CString(value.value));
          }
        case Unflatten(text) =>
          CleanNothing();
          ParseKeepsClean(CString(text), []);
        case Remove(item) =>
          RemoveKeepsClean(m, CString(item));
      }
    } else {
      CleanNothing();
    }
  }

  lemma CleanNothing()
    ensures Clean([])
  {
  }

  /** After any calls at all, flattening the map and unflattening the text gives the map back. */
  lemma ReachableRoundTrips(qcom: bool, calls: seq<Call>)
    ensures Clean(Run(qcom, calls))
    ensures Parse(CString(Flat(Run(qcom, calls))), []) == Run(qcom, calls)
  {
    RunKeepsClean(qcom, calls);
    RoundTrip(Run(qcom, calls));
  }

  class CameraParameters {
    const qcomHardware: bool
    var mMap: Params

    constructor (qcomHardware: bool)
      ensures Clean(mMap) && mMap == [] && this.qcomHardware == qcomHardware
    {
      this.qcomHardware := qcomHardware;
      mMap := [];
    }

    method Flatten() returns (flattened: string)
      requires Clean(mMap)
      ensures flattened == Flat(mMap)
      ensures Parse(CString(flattened), []) == mMap
    {
      RoundTrip(mMap);
      hide *;
      assert mMap[0..] == mMap;
      ghost var whole := Flat(mMap);
      flattened := "";
      var i := 0;
      while i < |mMap|
        invariant 0 <= i <= |mMap|
        invariant flattened + Flat(mMap[i..]) == whole
      {
        FlattenStep(mMap, i, flattened);
        var k, v := mMap[i].key, mMap[i].value;
        flattened := flattened + k;
        flattened := flattened + "=";
        flattened := flattened + v;
        if i != |mMap| - 1 {
          flattened := flattened + ";";
        }
        i := i + 1;
      }
      FlatOfNothing(mMap);
    }

    method Unflatten(params: string)
      modifies this
      ensures mMap == Parse(CString(params), [])
      ensures Clean(mMap)
    {
      hide *;
      CleanNothing();
      ParseKeepsClean(CString(params), []);
      var a := CString(params);
      mMap := [];
      ghost var answer := Parse(a, []);
      while true
        invariant Parse(a, mMap) == answer
        decreases |a|
      {
        ParseDefinition(a, mMap);
        var b := Strchr(a, '=');
        if b == |a| {
          break;
        }
        var k := a[..b];
        a := a[b + 1..];
        b := Strchr(a, ';');
        if b == |a| {
          mMap := Add(mMap, StrLess, k, a);
          break;
        }
        mMap := Add(mMap, StrLess, k, a[..b]);
        a := a[b + 1..];
      }
    }

    method Set(key: Option<string>, value: Option<string>)
      requires Clean(mMap)
      requires (key.Some? ==> '\0' !in key.value) && (value.Some? ==> '\0' !in value.value)
      modifies this
      ensures Clean(mMap)
      ensures mMap == if key.None? || value.None? then old(mMap)
                      else SetIn(old(mMap), qcomHardware, key.value, value.value)
    {
      if key.None? || value.None? {
        return;
      }
      SetKeepsClean(mMap, qcomHardware, key.value, value.value);
      if Rejected(key.value) {
        return;
      }
      if Rejected(value.value) {
        return;
      }
      if qcomHardware {
        if Lookup(mMap, HDR_NEED_1X).None? {
          mMap := Add(mMap, StrLess, HDR_NEED_1X, "false");
        }
      }
      mMap := Add(mMap, StrLess, key.value, value.value);
    }

    method Remove(key: string)
      requires Clean(mMap)
      modifies this
      ensures Clean(mMap)
      ensures forall e :: e in mMap <==> e in old(mMap) && e.key != CString(key)
      ensures mMap == Do(old(mMap), qcomHardware, Call.Remove(key))
    {
      StrLessIsOrder();
      RemoveKeeps(mMap, StrLess, CString(key));
      RemoveKeepsClean(mMap, CString(key));
      mMap := KeyedVectors.Remove(mMap, CString(key));
    }

    method SetPreviewSize(width: int, height: int)
      requires Clean(mMap) && Is32Bit(width) && Is32Bit(height)
      modifies this
      ensures Clean(mMap) && SizeIn(mMap, KEY_PREVIEW_SIZE) == (width, height)
      ensures SizeIn(mMap, KEY_VIDEO_SIZE) == old(SizeIn(mMap, KEY_VIDEO_SIZE))
      ensures SizeIn(mMap, KEY_PICTURE_SIZE) == old(SizeIn(mMap, KEY_PICTURE_SIZE))
    {
      hide *;
      SizeKeysArePlain();
      SetSizeLeavesOthers(mMap, qcomHardware, KEY_PREVIEW_SIZE, Size(width, height), KEY_VIDEO_SIZE);
      SetSizeLeavesOthers(mMap, qcomHardware, KEY_PREVIEW_SIZE, Size(width, height), KEY_PICTURE_SIZE);
      SetSize(KEY_PREVIEW_SIZE, width, height);
    }

    method SetVideoSize(width: int, height: int)
      requires Clean(mMap) && Is32Bit(width) && Is32Bit(height)
      modifies this
      ensures Clean(mMap) && SizeIn(mMap, KEY_VIDEO_SIZE) == (width, height)
      ensures SizeIn(mMap, KEY_PREVIEW_SIZE) == old(SizeIn(mMap, KEY_PREVIEW_SIZE))
      ensures SizeIn(mMap, KEY_PICTURE_SIZE) == old(SizeIn(mMap, KEY_PICTURE_SIZE))
    {
      hide *;
      SizeKeysArePlain();
      SetSizeLeavesOthers(mMap, qcomHardware, KEY_VIDEO_SIZE, Size(width, height), KEY_PREVIEW_SIZE);
      SetSizeLeavesOthers(mMap, qcomHardware, KEY_VIDEO_SIZE, Size(width, height), KEY_PICTURE_SIZE);
      SetSize(KEY_VIDEO_SIZE, width, height);
    }

    method SetPictureSize(width: int, height: int)
      requires Clean(mMap) && Is32Bit(width) && Is32Bit(height)
      modifies this
      ensures Clean(mMap) && SizeIn(mMap, KEY_PICTURE_SIZE) == (width, height)
      ensures SizeIn(mMap, KEY_PREVIEW_SIZE) == old(SizeIn(mMap, KEY_PREVIEW_SIZE))
      ensures SizeIn(mMap, KEY_VIDEO_SIZE) == old(SizeIn(mMap, KEY_VIDEO_SIZE))
    {
      hide *;
      SizeKeysArePlain();
      SetSizeLeavesOthers(mMap, qcomHardware, KEY_PICTURE_SIZE, Size(width, height), KEY_PREVIEW_SIZE);
      SetSizeLeavesOthers(mMap, qcomHardware, KEY_PICTURE_SIZE, Size(width, height), KEY_VIDEO_SIZE);
      SetSize(KEY_PICTURE_SIZE, width, height);
    }

    /** What the three setters share, by their key. */
    method SetSize(key: string, width: int, height: int)
      requires Clean(mMap) && !Rejected(key) && '\0' !in key
      requires Is32Bit(width) && Is32Bit(height)
      modifies this
      ensures Clean(mMap) && SizeIn(mMap, key) == (width, height)
      ensures mMap == SetIn(old(mMap), qcomHardware, key, PrintSize(Size(width, height)))
    {
      SetSizeThenGet(mMap, qcomHardware, key, Size(width, height));
      PrintedSizeIsPlain(Size(width, height));
      Set(Some(key), Some(PrintSize(Size(width, height))));
    }

    method GetSize(key: string) returns (width: int, height: int)
      ensures (width, height) == SizeIn(mMap, key)
    {
      width, height := -1, -1;
      var p := Lookup(mMap, key);
      if p.None? {
        return;
      }
      var r := ParsePair(p.value, 'x');
      if r.Some? {
        width, height := r.value.0, r.value.1;
      }
    }
  }
}
