/** The scan list of main/http_portal/http_portal.c: HandleScanRequest() writing JSON into its fixed buffer. */
module ScanJson {
  import opened WifiScan
  import opened PortalForm

  const JSON_MAX := 4096
  const ESCAPED_SSID_MAX := 193
  const SSID_MAX := 32

  // Printing.

  function Digits(n: nat): (d: string)
    ensures |d| > 0
  {
    if n < 10 then [HexDigit(n)] else Digits(n / 10) + [HexDigit(n % 10)]
  }

  function Decimal(n: int): string {
    if n < 0 then "-" + Digits(-n) else Digits(n)
  }

  function Flag(b: bool): string {
    if b then "true" else "false"
  }

  /** From the SSID's closing quote to the end of its object. */
  function Attributes(e: Entry): string {
    "\"" + (",\"rssi\":" + (Decimal(e.rssi) + (",\"open\":" + (Flag(e.isOpen) + (",\"uns\":"
        + (Flag(e.isUnsupported) + "}"))))))
  }

  const OPENING := "{\"ssid\":\""

  function Object(e: Entry): string {
    OPENING + (Escape(e.ssid) + Attributes(e))
  }

  /** The text printed for one entry: nothing for an empty name, a comma first unless the index is 0. */
  function Part(e: Entry, index: nat): string {
    if e.ssid == [] then "" else if index > 0 then "," + Object(e) else Object(e)
  }

  /** The text printed for the entries from `i` to `k`. */
  function Parts(es: Entries, i: nat, k: nat): string
    requires i <= k <= |es|
    decreases k - i
  {
    if i == k then "" else Part(es[i], i) + Parts(es, i + 1, k)
  }

  lemma {:induction false} PartsSnoc(es: Entries, i: nat, k: nat)
    requires i <= k < |es|
    ensures Parts(es, i, k + 1) == Parts(es, i, k) + Part(es[k], k)
    decreases k - i
  {
    hide Part;
    if i == k {
      assert Parts(es, k + 1, k + 1) == "";
    } else {
      PartsSnoc(es, i + 1, k);
      Associate(Part(es[i], i), Parts(es, i + 1, k), Part(es[k], k));
    }
  }

  // Reading: an independent reader of the list.

  function ReadLiteral(s: string, literal: string): (r: Parsed<bool>)
    ensures r.Got? ==> |r.rest| == |s| - |literal|
  {
    if literal <= s then Got(true, s[|literal|..]) else Fail
  }

  predicate IsDigit(c: char) { '0' <= c <= '9' }

  function ReadDigits(s: string, value: nat): (r: Parsed<int>)
    ensures r.Got? && |r.rest| <= |s|
  {
    if s != "" && IsDigit(s[0]) then ReadDigits(s[1..], 10 * value + GetHexValue(s[0])) else Got(value, s)
  }

  /** A JSON integer: digits without a leading zero, or a single zero. */
  function ReadNatural(s: string): (r: Parsed<int>)
    ensures r.Got? ==> |r.rest| <= |s|
  {
    if s == "" || !IsDigit(s[0]) then Fail else if s[0] == '0' then Got(0, s[1..]) else ReadDigits(s, 0)
  }

  function ReadNumber(s: string): (r: Parsed<int>)
    ensures r.Got? ==> |r.rest| <= |s|
  {
    if s != "" && s[0] == '-' then
      var r := ReadNatural(s[1..]);
      if r.Fail? then Fail else Got(-r.value, r.rest)
    else ReadNatural(s)
  }

  function ReadFlag(s: string): (r: Parsed<bool>)
    ensures r.Got? ==> |r.rest| <= |s|
  {
    if "true" <= s then Got(true, s[4..]) else if "false" <= s then Got(false, s[5..]) else Fail
  }

  function ReadAttributes(s: string, ssid: Text): (r: Parsed<Entry>)
    ensures r.Got? ==> |r.rest| < |s|
  {
    var a := ReadLiteral(s, ",\"rssi\":");
    if a.Fail? then Fail else
    var rssi := ReadNumber(a.rest);
    if rssi.Fail? then Fail else
    var b := ReadLiteral(rssi.rest, ",\"open\":");
    if b.Fail? then Fail else
    var isOpen := ReadFlag(b.rest);
    if isOpen.Fail? then Fail else
    var c := ReadLiteral(isOpen.rest, ",\"uns\":");
    if c.Fail? then Fail else
    var isUnsupported := ReadFlag(c.rest);
    if isUnsupported.Fail? then Fail else
    var d := ReadLiteral(isUnsupported.rest, "}");
    if d.Fail? then Fail else Got(Entry(ssid, rssi.value, isOpen.value, isUnsupported.value), d.rest)
  }

  function ReadObject(s: string): (r: Parsed<Entry>)
    ensures r.Got? ==> |r.rest| < |s|
  {
    var a := ReadLiteral(s, "{\"ssid\":\"");
    if a.Fail? then Fail else
    var ssid := ReadString(a.rest);
    if ssid.Fail? then Fail else ReadAttributes(ssid.rest, ssid.value)
  }

  /** Objects, each after a comma, then the closing bracket at the end of the text. */
  function ReadRest(s: string): Parsed<Entries>
    decreases |s|
  {
    if s == "]" then Got([], "")
    else if s == "" || s[0] != ',' then Fail
    else
      var e := ReadObject(s[1..]);
      if e.Fail? then Fail
      else
        var tail := ReadRest(e.rest);
        if tail.Fail? then Fail else Got([e.value] + tail.value, "")
  }

  /** The whole body: a JSON array of the objects. */
  function ReadBody(s: string): Parsed<Entries> {
    if s == "" || s[0] != '[' then Fail
    else if s == "[]" then Got([], "")
    else ReadRest("," + s[1..])
  }

  // Each reader undoes its printer.

  lemma {:induction false} ReadPrintedDigits(n: nat, rest: string)
    ensures ReadDigits(Digits(n) + rest, 0) == ReadDigits(rest, n)
    decreases n
  {
    hide ReadDigits; hide HexDigit;
    var last := [HexDigit(n % 10)];
    ReadDigit(n % 10, rest, if n < 10 then 0 else n / 10);
    if n >= 10 {
      ReadPrintedDigits(n / 10, last + rest);
      Associate(Digits(n / 10), last, rest);
    }
  }

  lemma ReadDigit(d: nat, rest: string, value: nat)
    requires d < 10
    ensures ReadDigits([HexDigit(d)] + rest, value) == ReadDigits(rest, 10 * value + d)
  {
    hide HexDigit;
    DecimalDigit(d);
    assert ([HexDigit(d)] + rest)[1..] == rest;
  }

  lemma {:induction false} FirstDigit(n: nat)
    ensures IsDigit(Digits(n)[0]) && (Digits(n)[0] == '0' ==> n == 0)
    decreases n
  {
    hide HexDigit;
    if n < 10 {
      DecimalDigit(n);
    } else {
      FirstDigit(n / 10);
    }
  }

  lemma DecimalDigit(n: nat)
    requires n < 10
    ensures IsDigit(HexDigit(n)) && GetHexValue(HexDigit(n)) == n && (HexDigit(n) == '0' <==> n == 0)
  {
    assert HexDigit(n) == (n + '0' as int) as char;
  }

  lemma ReadPrintedNatural(n: nat, rest: string)
    requires rest != "" && !IsDigit(rest[0])
    ensures ReadNatural(Digits(n) + rest) == Got(n, rest)
    ensures Digits(n)[0] != '-'
  {
    ReadPrintedDigits(n, rest);
    FirstDigit(n);
    var s := Digits(n) + rest;
    assert s[0] == Digits(n)[0];
    if n == 0 {
      assert Digits(0) == "0";
      assert s[1..] == rest;
    } else {
      hide Digits;
    }
  }

  lemma ReadPrintedNumber(n: int, rest: string)
    requires rest != "" && !IsDigit(rest[0])
    ensures ReadNumber(Decimal(n) + rest) == Got(n, rest)
  {
    hide Digits; hide ReadNatural; hide IsDigit;
    var s := Decimal(n) + rest;
    if n < 0 {
      ReadPrintedNatural(-n, rest);
      assert s[1..] == Digits(-n) + rest;
    } else {
      ReadPrintedNatural(n, rest);
      assert s[0] == Digits(n)[0];
    }
  }

  lemma ReadPrintedFlag(b: bool, rest: string)
    ensures ReadFlag(Flag(b) + rest) == Got(b, rest)
  {
    var s := Flag(b) + rest;
    assert s[0] == if b then 't' else 'f';
    assert s[|Flag(b)|..] == rest;
  }

  lemma ReadPrintedLiteral(literal: string, rest: string)
    ensures ReadLiteral(literal + rest, literal) == Got(true, rest)
  {
    assert (literal + rest)[|literal|..] == rest;
  }

  lemma ReadPrintedAttributes(e: Entry, rest: string)
    ensures |Attributes(e)| > 0 && Attributes(e)[0] == '"'
    ensures ReadAttributes(Attributes(e)[1..] + rest, e.ssid) == Got(e, rest)
  {
    hide ReadLiteral; hide ReadNumber; hide ReadFlag; hide Flag; hide Decimal;
    var s6 := "}" + rest;
    var s5 := Flag(e.isUnsupported) + s6;
    var s4 := ",\"uns\":" + s5;
    var s3 := Flag(e.isOpen) + s4;
    var s2 := ",\"open\":" + s3;
    var s1 := Decimal(e.rssi) + s2;
    assert Attributes(e)[1..] + rest == ",\"rssi\":" + s1;
    ReadPrintedLiteral(",\"rssi\":", s1);
    ReadPrintedNumber(e.rssi, s2);
    ReadPrintedLiteral(",\"open\":", s3);
    ReadPrintedFlag(e.isOpen, s4);
    ReadPrintedLiteral(",\"uns\":", s5);
    ReadPrintedFlag(e.isUnsupported, s6);
    ReadPrintedLiteral("}", rest);
  }

  lemma ReadPrintedObject(e: Entry, rest: string)
    ensures ReadObject(Object(e) + rest) == Got(e, rest)
  {
    hide ReadLiteral; hide ReadString; hide ReadAttributes; hide Attributes; hide Escape;
    ReadPrintedAttributes(e, rest);
    var tail := Attributes(e)[1..] + rest;
    assert Attributes(e) + rest == "\"" + tail;
    assert Object(e) + rest == OPENING + (Escape(e.ssid) + "\"" + tail);
    ReadPrintedLiteral(OPENING, Escape(e.ssid) + "\"" + tail);
    UnescapeEscape(e.ssid, tail);
  }

  // The body.

  function Named(es: Entries): (r: Entries) {
    if es == [] then [] else (if es[0].ssid == [] then [] else [es[0]]) + Named(es[1..])
  }

  lemma PartsStep(es: Entries, i: nat, k: nat, rest: string)
    requires 1 <= i < k <= |es|
    ensures Parts(es, i, k) + rest ==
              if es[i].ssid == [] then Parts(es, i + 1, k) + rest
                  else "," + (Object(es[i]) + (Parts(es, i + 1, k) + rest))
    ensures Named(es[i..k]) == (if es[i].ssid == [] then [] else [es[i]]) + Named(es[i + 1..k])
  {
    hide Object;
    assert es[i..k][1..] == es[i + 1..k];
    var tail := Parts(es, i + 1, k);
    if es[i].ssid == [] {
      assert "" + tail == tail;
    } else {
      Associate(",", Object(es[i]), tail);
      Associate(",", Object(es[i]) + tail, rest);
      Associate(Object(es[i]), tail, rest);
    }
  }

  lemma NothingLeft(es: Entries, k: nat)
    requires k <= |es|
    ensures Parts(es, k, k) == "" && Named(es[k..k]) == [] && ReadRest("" + "]") == Got([], "")
  {
    assert "" + "]" == "]";
  }

  lemma {:induction false} ReadPrintedRest(es: Entries, i: nat, k: nat)
    requires 1 <= i <= k <= |es|
    ensures ReadRest(Parts(es, i, k) + "]") == Got(Named(es[i..k]), "")
    decreases k - i
  {
    hide *;
    NothingLeft(es, k);
    if i < k {
      ReadPrintedRest(es, i + 1, k);
      PartsStep(es, i, k, "]");
      if es[i].ssid != [] {
        ReadAfterComma(es[i], Parts(es, i + 1, k) + "]");
      } else {
        assert [] + Named(es[i + 1..k]) == Named(es[i + 1..k]);
      }
    }
  }

  lemma ReadAfterComma(e: Entry, rest: string)
    ensures var s := "," + (Object(e) + rest);
      ReadRest(s) == if ReadRest(rest).Fail? then Fail else Got([e] + ReadRest(rest).value, "")
  {
    hide Object; hide ReadObject;
    ReadPrintedObject(e, rest);
    var s := "," + (Object(e) + rest);
    assert s[1..] == Object(e) + rest;
  }

  /** A first entry without a name leaves its comma behind: the list then starts with one. */
  predicate StartsClean(es: Entries) {
    es == [] || es[0].ssid != [] || Named(es) == []
  }

  /**
   * Reading the body gives the named entries printed into it, unless an unnamed first entry is followed by a named one.
   */
  lemma BodyReadsBack(es: Entries, k: nat)
    requires k <= |es|
    ensures ReadBody("[" + Parts(es, 0, k) + "]") == if StartsClean(es[..k]) then Got(Named(es[..k]), "") else Fail
  {
    hide *;
    if k > 0 {
      var rest := Parts(es, 1, k) + "]";
      ReadPrintedRest(es, 1, k);
      FirstStep(es, k);
      if es[0].ssid != [] {
        Associate("[", Object(es[0]), rest);
        ReadOpened(Object(es[0]) + rest);
        ReadAfterComma(es[0], rest);
      } else {
        ReadOpened(rest);
        PartsStart(es, 1, k);
        if Named(es[1..k]) != [] {
          ReadDoubleComma(rest);
        }
      }
    } else {
      NothingPrinted(es);
      ReadOpened("]");
    }
  }

  lemma NothingPrinted(es: Entries)
    ensures "[" + Parts(es, 0, 0) + "]" == "[" + "]"
    ensures StartsClean(es[..0]) && Named(es[..0]) == []
  {
    assert "[" + "" == "[";
  }

  lemma FirstStep(es: Entries, k: nat)
    requires 1 <= k <= |es|
    ensures var rest := Parts(es, 1, k) + "]";
      "[" + Parts(es, 0, k) + "]" == (if es[0].ssid == [] then "[" + rest else "[" + (Object(es[0]) + rest))
    ensures Named(es[..k]) == if es[0].ssid == [] then Named(es[1..k]) else [es[0]] + Named(es[1..k])
    ensures StartsClean(es[..k]) <==> es[0].ssid != [] || Named(es[1..k]) == []
    ensures es[0].ssid != [] ==> |Object(es[0])| > 1
  {
    hide Attributes; hide Escape;
    assert es[..k][0] == es[0] && es[..k][1..] == es[1..k];
  }

  lemma ReadOpened(s: string)
    ensures ReadBody("[" + s) == if s == "]" then Got([], "") else ReadRest("," + s)
  {
    hide ReadRest;
    assert ("[" + s)[1..] == s;
    assert "[" + s == "[]" <==> s == "]";
  }

  lemma ReadDoubleComma(s: string)
    requires s != "" && s[0] == ','
    ensures ReadRest("," + s).Fail?
  {
    assert ("," + s)[1..] == s;
    assert ReadObject(s).Fail?;
  }

  lemma {:induction false} PartsStart(es: Entries, i: nat, k: nat)
    requires 1 <= i <= k <= |es|
    ensures Parts(es, i, k) == "" <==> Named(es[i..k]) == []
    ensures Parts(es, i, k) != "" ==> Parts(es, i, k)[0] == ','
    decreases k - i
  {
    hide *;
    NothingLeft(es, k);
    if i < k {
      PartsStart(es, i + 1, k);
      PartsStep(es, i, k, "");
      assert Parts(es, i, k) + "" == Parts(es, i, k);
      assert Parts(es, i + 1, k) + "" == Parts(es, i + 1, k);
      assert |[] + Named(es[i + 1..k])| == |Named(es[i + 1..k])|;
    }
  }

  lemma {:induction false} AllNamed(es: Entries)
    requires forall e <- es :: e.ssid != []
    ensures Named(es) == es
  {
    if es != [] {
      AllNamed(es[1..]);
    }
  }

  // The handler.

  /**
   * The entries before `k` are all that fit: the next one has a name and would leave no room for "]" and the
   * terminator.
   */
  ghost predicate IsCutAt(es: Entries, k: nat, size: nat) {
    && k <= |es|
    && (k < |es| ==> es[k].ssid != [] && 1 + |Parts(es, 0, k + 1)| + 2 > size)
  }

  /**
   * Prints the body into `json`. It always fits, and it is the array of the entries before `k`, where `k` is the
   * whole list or the first entry that does not fit.
   */
  method WriteScanBody(es: array<Entry>, count: nat, json: array<char>) returns (used: nat, ghost k: nat)
    requires count <= es.Length && json.Length == JSON_MAX
    requires forall i :: 0 <= i < count ==> |es[i].ssid| <= SSID_MAX
    modifies json
    ensures used < json.Length && json[used] == '\0' && IsCutAt(es[..count], k, JSON_MAX)
    ensures json[..used] == "[" + Parts(es[..count], 0, k) + "]"
  {
    hide Part; hide Parts; hide Attributes; hide Escape;
    ghost var list := es[..count];
    var escaped := new char[ESCAPED_SSID_MAX];
    used := 0;
    json[used] := '[';
    used := used + 1;
    var index := 0;
    NoParts(list);
    assert json[..used] == "[" + Parts(list, 0, 0);
    while index < count
      invariant index <= count && 1 <= used == 1 + |Parts(list, 0, index)| && used + 2 <= JSON_MAX
      invariant json[..used] == "[" + Parts(list, 0, index)
      invariant escaped.Length == ESCAPED_SSID_MAX && fresh(escaped)
    {
      var e := es[index];
      EscapeIsInert(e.ssid);
      var length := EscapeJsonString(e.ssid, escaped);
      PartsSnoc(list, 0, index);
      PartIs(e, index);
      if length == 0 {
        index := index + 1;
        continue;
      }
      var text := (if index > 0 then "," else "") + (OPENING + (escaped[..length] + Attributes(e)));
      assert text == Part(e, index);
      var written := PrintBounded(json, used, text);
      if written + 2 > json.Length - used {
        break;
      }
      Associate("[", Parts(list, 0, index), text);
      used := used + written;
      index := index + 1;
    }
    k := index;
    json[used] := ']';
    used := used + 1;
    json[used] := '\0';
  }

  lemma NoParts(es: Entries)
    ensures Parts(es, 0, 0) == ""
  {
  }

  lemma PartIs(e: Entry, index: nat)
    ensures e.ssid == [] ==> Part(e, index) == "" && Escape(e.ssid) == ""
    ensures e.ssid != [] ==>
              Part(e, index) == (if index > 0 then "," else "") + (OPENING + (Escape(e.ssid) + Attributes(e)))
  {
  }

  /** snprintf() at `used`: writes what fits before the terminator and returns the full length. */
  method PrintBounded(json: array<char>, used: nat, text: string) returns (written: nat)
    requires used < json.Length
    modifies json
    ensures written == |text|
    ensures json[..used] == old(json[..used])
    ensures used + |text| < json.Length ==> json[..used + |text|] == old(json[..used]) + text
  {
    var n := if |text| < json.Length - used then |text| else json.Length - used - 1;
    forall i | used <= i < used + n {
      json[i] := text[i - used];
    }
    json[used + n] := '\0';
    written := |text|;
  }

  /**
   * A scan result normalised in place and served: the body is the array of exactly the first `k` entries of the list.
   */
  method ServeScan(es: array<Entry>, count: nat, maxEntries: nat, json: array<char>) returns (used: nat, ghost k: nat)
    requires count <= es.Length && json.Length == JSON_MAX
    requires forall i :: 0 <= i < count ==> |es[i].ssid| <= SSID_MAX
    modifies es, json
    ensures used < json.Length && json[used] == '\0'
    ensures var list := Normalized(old(es[..count]), maxEntries);
      IsCutAt(list, k, JSON_MAX) && ReadBody(json[..used]) == Got(list[..k], "")
  {
    hide *;
    ghost var scanned := es[..count];
    ShortNames(scanned, maxEntries);
    var kept := NormalizeWifiScanEntries(es, count, maxEntries);
    ghost var list := Normalized(scanned, maxEntries);
    forall i | 0 <= i < kept ensures |es[i].ssid| <= SSID_MAX {
      assert es[..kept][i] == es[i];
    }
    used, k := WriteScanBody(es, kept, json);
    CutInside(list, k);
    NormalizedBodyReadsBack(scanned, maxEntries, k);
  }

  lemma CutInside(es: Entries, k: nat)
    requires IsCutAt(es, k, JSON_MAX)
    ensures k <= |es|
  {
  }

  lemma ShortNames(xs: Entries, max: nat)
    requires forall i :: 0 <= i < |xs| ==> |xs[i].ssid| <= SSID_MAX
    ensures var r := Normalized(xs, max); forall i :: 0 <= i < |r| ==> |r[i].ssid| <= SSID_MAX
  {
    NormalizedIsBest(xs, max);
  }

  /**
   * For a normalised scan the response body is always a well-formed array holding exactly the first `k` entries of the
   * list, SSIDs byte for byte, whatever the cut.
   */
  lemma NormalizedBodyReadsBack(xs: Entries, max: nat, k: nat)
    requires k <= |Normalized(xs, max)|
    ensures ReadBody("[" + Parts(Normalized(xs, max), 0, k) + "]") == Got(Normalized(xs, max)[..k], "")
  {
    var es := Normalized(xs, max);
    NormalizedIsBest(xs, max);
    BodyReadsBack(es, k);
    AllNamed(es[..k]);
  }
}
