/** Manifest data (steam.py): the flat `"key" "value"` parser, the fields a
    manifest reader takes from the parsed map and the file name, and the
    remaining-bytes counter. */
module Manifests {
  import opened Common
  import opened Text

  /** `AppManifest`. */
  datatype Manifest = Manifest(appid: string, name: string, bytesDownloaded: int, bytesToDownload: int, stateFlags: int)

  /** `AppManifest.remaining_bytes`: what is left to download, never negative. */
  function RemainingBytes(m: Manifest): (r: int)
    ensures r >= 0 && r >= m.bytesToDownload - m.bytesDownloaded
    ensures r == 0 || r == m.bytesToDownload - m.bytesDownloaded
    ensures r > 0 <==> m.bytesToDownload > m.bytesDownloaded
  {
    var remaining := m.bytesToDownload - m.bytesDownloaded;
    if remaining > 0 then remaining else 0
  }

  /** A key and a value captured by the key/value pattern. */
  datatype KeyValue = KeyValue(key: string, value: string)

  /** The first index at or after `i` that is not whitespace, or `|s|`. */
  function SkipSpaces(s: string, i: nat): (j: nat)
    requires i <= |s|
    ensures i <= j <= |s|
    ensures j == |s| || !IsSpace(s[j])
    ensures forall k :: i <= k < j ==> IsSpace(s[k])
    decreases |s| - i
  {
    if i < |s| && IsSpace(s[i]) then SkipSpaces(s, i + 1) else i
  }

  /** The first `"` at or after `i`, or `|s|`. */
  function NextQuote(s: string, i: nat): (j: nat)
    requires i <= |s|
    ensures i <= j <= |s|
    ensures j == |s| || s[j] == '"'
    ensures forall k :: i <= k < j ==> s[k] != '"'
    decreases |s| - i
  {
    if i < |s| && s[i] != '"' then NextQuote(s, i + 1) else i
  }

  /** `^\s*"([^"]+)"\s+"([^"]*)"\s*$` matched against one line. Whitespace
      never is a quote, so the pattern can match in one way only, which this
      scanner follows. */
  function MatchKeyValue(line: string): Option<KeyValue> {
    var a := SkipSpaces(line, 0);
    if a == |line| || line[a] != '"' then None
    else
      var ke := NextQuote(line, a + 1);
      if ke == |line| || ke == a + 1 then None
      else
        var b := SkipSpaces(line, ke + 1);
        if b == ke + 1 || b == |line| || line[b] != '"' then None
        else
          var ve := NextQuote(line, b + 1);
          if ve == |line| || SkipSpaces(line, ve + 1) != |line| then None
          else Some(KeyValue(line[a + 1..ke], line[b + 1..ve]))
  }

  predicate NoQuote(s: string) { forall i :: 0 <= i < |s| ==> s[i] != '"' }

  /** `s[i..j]` is all whitespace. */
  predicate BlankBetween(s: string, i: nat, j: nat)
    requires i <= j <= |s|
  {
    forall k :: i <= k < j ==> IsSpace(s[k])
  }

  /** `s[i..j]` holds no quote. */
  predicate QuoteFreeBetween(s: string, i: nat, j: nat)
    requires i <= j <= |s|
  {
    forall k :: i <= k < j ==> s[k] != '"'
  }

  /** The shape the key/value pattern accepts, by positions: blank up to the
      opening quote of the key at `a`, a non-empty quote-free key up to its
      closing quote at `ke`, non-empty blank up to the opening quote of the
      value at `b`, a quote-free value up to its closing quote at `ve`, and
      blank to the end. */
  predicate Layout(s: string, a: nat, ke: nat, b: nat, ve: nat) {
    a + 1 < ke && ke + 1 < b && b < ve < |s|
    && BlankBetween(s, 0, a) && s[a] == '"'
    && QuoteFreeBetween(s, a + 1, ke) && s[ke] == '"'
    && BlankBetween(s, ke + 1, b) && s[b] == '"'
    && QuoteFreeBetween(s, b + 1, ve) && s[ve] == '"'
    && BlankBetween(s, ve + 1, |s|)
  }

  /** A line with that shape matches, capturing the key and the value. */
  lemma LayoutMatches(s: string, a: nat, ke: nat, b: nat, ve: nat)
    requires Layout(s, a, ke, b, ve)
    ensures MatchKeyValue(s) == Some(KeyValue(s[a + 1..ke], s[b + 1..ve]))
  {
    assert SkipSpaces(s, 0) == a by { SkipSpacesStops(s, 0, a); }
    assert NextQuote(s, a + 1) == ke by { NextQuoteStops(s, a + 1, ke); }
    assert SkipSpaces(s, ke + 1) == b by { SkipSpacesStops(s, ke + 1, b); }
    assert NextQuote(s, b + 1) == ve by { NextQuoteStops(s, b + 1, ve); }
    assert SkipSpaces(s, ve + 1) == |s| by { SkipSpacesStops(s, ve + 1, |s|); }
    MatchAt(s, a, ke, b, ve);
  }

  /** The scanner's steps, once the positions it finds are known. */
  lemma MatchAt(s: string, a: nat, ke: nat, b: nat, ve: nat)
    requires a + 1 < ke && ke + 1 < b && b < ve < |s|
    requires s[a] == '"' && s[b] == '"'
    requires SkipSpaces(s, 0) == a && NextQuote(s, a + 1) == ke
    requires SkipSpaces(s, ke + 1) == b && NextQuote(s, b + 1) == ve
    requires SkipSpaces(s, ve + 1) == |s|
    ensures MatchKeyValue(s) == Some(KeyValue(s[a + 1..ke], s[b + 1..ve]))
  {
  }

  /** Skipping blanks from `i` stops at the first non-blank `j`. */
  lemma {:induction false} SkipSpacesStops(s: string, i: nat, j: nat)
    requires i <= j <= |s| && BlankBetween(s, i, j)
    requires j == |s| || s[j] == '"'
    ensures SkipSpaces(s, i) == j
    decreases j - i
  {
    if i < j {
      SkipSpacesStops(s, i + 1, j);
    } else if j < |s| {
      assert !IsSpace(s[j]);
    }
  }

  /** Searching for a quote from `i` stops at the first quote `j`. */
  lemma {:induction false} NextQuoteStops(s: string, i: nat, j: nat)
    requires i <= j < |s| && QuoteFreeBetween(s, i, j) && s[j] == '"'
    ensures NextQuote(s, i) == j
    decreases j - i
  {
    if i < j {
      NextQuoteStops(s, i + 1, j);
    }
  }

  /** A line matches only with that shape. */
  lemma MatchHasLayout(s: string)
    requires MatchKeyValue(s).Some?
    ensures exists a: nat, ke: nat, b: nat, ve: nat ::
              Layout(s, a, ke, b, ve) && MatchKeyValue(s).value == KeyValue(s[a + 1..ke], s[b + 1..ve])
  {
    var a := SkipSpaces(s, 0);
    var ke := NextQuote(s, a + 1);
    var b := SkipSpaces(s, ke + 1);
    var ve := NextQuote(s, b + 1);
    assert Layout(s, a, ke, b, ve);
  }

  /** The line `w1"key"w2"value"w3`. */
  function KeyValueLine(w1: string, key: string, w2: string, value: string, w3: string): string {
    w1 + "\"" + key + "\"" + w2 + "\"" + value + "\"" + w3
  }

  /** A line assembled from blank padding, a non-empty quote-free key and a
      quote-free value has the accepted shape, with the key and the value
      where the scanner captures them. */
  lemma KeyValueLineLayout(w1: string, key: string, w2: string, value: string, w3: string)
    requires IsBlank(w1) && IsBlank(w3) && IsBlank(w2) && w2 != []
    requires key != [] && NoQuote(key) && NoQuote(value)
    ensures var s := KeyValueLine(w1, key, w2, value, w3);
      var a := |w1|; var ke := a + 1 + |key|; var b := ke + 1 + |w2|; var ve := b + 1 + |value|;
      ve < |s| && Layout(s, a, ke, b, ve) && s[a + 1..ke] == key && s[b + 1..ve] == value
  {
    var s := KeyValueLine(w1, key, w2, value, w3);
    var a := |w1|;
    var ke := a + 1 + |key|;
    var b := ke + 1 + |w2|;
    var ve := b + 1 + |value|;
    assert s == w1 + ['"'] + key + ['"'] + w2 + ['"'] + value + ['"'] + w3;
    assert s[a] == '"' && s[ke] == '"' && s[b] == '"' && s[ve] == '"';
    assert s[..a] == w1;
    assert s[a + 1..ke] == key;
    assert s[ke + 1..b] == w2;
    assert s[b + 1..ve] == value;
    assert s[ve + 1..] == w3;
    BlankSlice(s, 0, a);
    QuoteFreeSlice(s, a + 1, ke);
    BlankSlice(s, ke + 1, b);
    QuoteFreeSlice(s, b + 1, ve);
    BlankSlice(s, ve + 1, |s|);
  }

  lemma BlankSlice(s: string, i: nat, j: nat)
    requires i <= j <= |s| && IsBlank(s[i..j])
    ensures BlankBetween(s, i, j)
  {
    forall k | i <= k < j ensures IsSpace(s[k]) {
      assert s[k] == s[i..j][k - i];
    }
  }

  lemma QuoteFreeSlice(s: string, i: nat, j: nat)
    requires i <= j <= |s| && NoQuote(s[i..j])
    ensures QuoteFreeBetween(s, i, j)
  {
    forall k | i <= k < j ensures s[k] != '"' {
      assert s[k] == s[i..j][k - i];
    }
  }

  /** A line of the accepted form is read back as its key and value. */
  lemma MatchKeyValueLine(w1: string, key: string, w2: string, value: string, w3: string)
    requires IsBlank(w1) && IsBlank(w3) && IsBlank(w2) && w2 != []
    requires key != [] && NoQuote(key) && NoQuote(value)
    ensures MatchKeyValue(KeyValueLine(w1, key, w2, value, w3)) == Some(KeyValue(key, value))
  {
    var a := |w1|;
    var ke := a + 1 + |key|;
    var b := ke + 1 + |w2|;
    var ve := b + 1 + |value|;
    KeyValueLineLayout(w1, key, w2, value, w3);
    LayoutMatches(KeyValueLine(w1, key, w2, value, w3), a, ke, b, ve);
  }

  /** The map `VdfKeyValueParser.parse` builds from `lines`: every matching
      line stores its value under its key, later lines overwriting earlier. */
  function KeyValues(lines: seq<string>): map<string, string> {
    if lines == [] then map[]
    else
      Store(KeyValues(lines[..|lines| - 1]), MatchKeyValue(lines[|lines| - 1]))
  }

  /** The map after one line: a match stores its value under its key. */
  function Store(m: map<string, string>, kv: Option<KeyValue>): map<string, string> {
    if kv.Some? then m[kv.value.key := kv.value.value] else m
  }

  /** One step of `VdfKeyValueParser.parse`: a match updates the map. */
  method StoreMatch(m: map<string, string>, kv: Option<KeyValue>) returns (r: map<string, string>)
    ensures r == Store(m, kv)
  {
    r := m;
    if kv.Some? {
      r := r[kv.value.key := kv.value.value];
    }
  }

  /** `VdfKeyValueParser.parse`: one pass over the lines, filling a map. */
  method ParseVdf(text: string) returns (result: map<string, string>)
    ensures result == KeyValues(SplitLines(text))
  {
    var lines := SplitLines(text);
    result := map[];
    var i := 0;
    while i < |lines|
      invariant 0 <= i <= |lines|
      invariant result == KeyValues(lines[..i])
    {
      assert lines[..i + 1][..i] == lines[..i];
      var m := MatchKeyValue(lines[i]);
      result := StoreMatch(result, m);
      i := i + 1;
    }
    assert lines[..|lines|] == lines;
  }

  /** Line `i` matches the pattern with key `k`. */
  predicate HasKeyAt(lines: seq<string>, i: nat, k: string) {
    i < |lines| && MatchKeyValue(lines[i]).Some? && MatchKeyValue(lines[i]).value.key == k
  }

  /** A key is in the parsed map exactly when some line carries it. */
  lemma {:induction false} KeyValuesHasKey(lines: seq<string>, k: string)
    ensures k in KeyValues(lines) <==> exists i: nat :: HasKeyAt(lines, i, k)
  {
    if lines != [] {
      var init := lines[..|lines| - 1];
      KeyValuesHasKey(init, k);
      forall i: nat | i < |init| ensures HasKeyAt(init, i, k) == HasKeyAt(lines, i, k) {
        assert init[i] == lines[i];
      }
      var last := MatchKeyValue(lines[|lines| - 1]);
      assert KeyValues(lines) == Store(KeyValues(init), last);
      if !HasKeyAt(lines, |lines| - 1, k) {
        assert (k in KeyValues(lines)) == (k in KeyValues(init));
        if i: nat :| HasKeyAt(lines, i, k) {
          assert HasKeyAt(init, i, k);
        }
      } else {
        assert k in KeyValues(lines);
      }
    }
  }

  /** The value stored under a key is the one on the last line carrying it. */
  lemma {:induction false} KeyValuesLastWins(lines: seq<string>, k: string, i: nat)
    requires HasKeyAt(lines, i, k)
    requires forall j: nat :: i < j ==> !HasKeyAt(lines, j, k)
    ensures k in KeyValues(lines) && KeyValues(lines)[k] == MatchKeyValue(lines[i]).value.value
  {
    var init := lines[..|lines| - 1];
    if i < |lines| - 1 {
      assert !HasKeyAt(lines, |lines| - 1, k);
      assert init[i] == lines[i];
      forall j: nat | i < j ensures !HasKeyAt(init, j, k) {
        if j < |init| {
          assert init[j] == lines[j];
          assert !HasKeyAt(lines, j, k);
        }
      }
      KeyValuesLastWins(init, k, i);
    }
  }

  /** A quoted `"key" "value"` line with a single space between the two. */
  function QuotedPair(key: string, value: string): string {
    KeyValueLine("", key, " ", value, "")
  }

  /** A `"key" "value"` line reads back as its key and value. */
  lemma QuotedPairMatches(key: string, value: string)
    requires key != [] && NoQuote(key) && NoQuote(value)
    ensures MatchKeyValue(QuotedPair(key, value)) == Some(KeyValue(key, value))
  {
    assert IsBlank(" ");
    MatchKeyValueLine("", key, " ", value, "");
  }

  /** A `"key" "value"` line after `lines` stores the value under the key. */
  lemma PairStep(lines: seq<string>, key: string, value: string)
    requires key != [] && NoQuote(key) && NoQuote(value)
    ensures KeyValues(lines + [QuotedPair(key, value)]) == KeyValues(lines)[key := value]
  {
    QuotedPairMatches(key, value);
    assert (lines + [QuotedPair(key, value)])[..|lines|] == lines;
  }

  /** Five `"key" "value"` lines parse to their five pairs, later keys
      overwriting earlier ones. */
  lemma FivePairs(k0: string, v0: string, k1: string, v1: string, k2: string, v2: string,
                  k3: string, v3: string, k4: string, v4: string)
    requires k0 != [] && NoQuote(k0) && NoQuote(v0) && k1 != [] && NoQuote(k1) && NoQuote(v1)
    requires k2 != [] && NoQuote(k2) && NoQuote(v2) && k3 != [] && NoQuote(k3) && NoQuote(v3)
    requires k4 != [] && NoQuote(k4) && NoQuote(v4)
    ensures KeyValues([QuotedPair(k0, v0), QuotedPair(k1, v1), QuotedPair(k2, v2), QuotedPair(k3, v3), QuotedPair(k4, v4)])
         == map[k0 := v0][k1 := v1][k2 := v2][k3 := v3][k4 := v4]
  {
    var s0: seq<string> := [];
    var s1 := s0 + [QuotedPair(k0, v0)];
    var s2 := s1 + [QuotedPair(k1, v1)];
    var s3 := s2 + [QuotedPair(k2, v2)];
    var s4 := s3 + [QuotedPair(k3, v3)];
    var s5 := s4 + [QuotedPair(k4, v4)];
    PairStep(s0, k0, v0);
    PairStep(s1, k1, v1);
    PairStep(s2, k2, v2);
    PairStep(s3, k3, v3);
    PairStep(s4, k4, v4);
    assert s5 == [QuotedPair(k0, v0), QuotedPair(k1, v1), QuotedPair(k2, v2), QuotedPair(k3, v3), QuotedPair(k4, v4)];
  }

  /** A `"key" "value"` line of break-free parts holds no line break. */
  lemma QuotedPairNoBreak(key: string, value: string)
    requires NoBreak(key) && NoBreak(value)
    ensures NoBreak(QuotedPair(key, value))
  {
    var s := QuotedPair(key, value);
    assert s == "\"" + key + "\" \"" + value + "\"";
    forall i | 0 <= i < |s| ensures !IsLineBreak(s[i]) {
      if 1 <= i < 1 + |key| {
        assert s[i] == key[i - 1];
      } else if 4 + |key| <= i < 4 + |key| + |value| {
        assert s[i] == value[i - 4 - |key|];
      }
    }
  }

  /** Five `"key" "value"` lines joined by "\n", as a manifest file holds
      them, parse to their five pairs. */
  lemma FivePairsText(k0: string, v0: string, k1: string, v1: string, k2: string, v2: string,
                      k3: string, v3: string, k4: string, v4: string)
    requires k0 != [] && NoQuote(k0) && NoQuote(v0) && k1 != [] && NoQuote(k1) && NoQuote(v1)
    requires k2 != [] && NoQuote(k2) && NoQuote(v2) && k3 != [] && NoQuote(k3) && NoQuote(v3)
    requires k4 != [] && NoQuote(k4) && NoQuote(v4)
    requires NoBreak(k0) && NoBreak(v0) && NoBreak(k1) && NoBreak(v1) && NoBreak(k2) && NoBreak(v2)
    requires NoBreak(k3) && NoBreak(v3) && NoBreak(k4) && NoBreak(v4)
    ensures KeyValues(SplitLines(Join([QuotedPair(k0, v0), QuotedPair(k1, v1), QuotedPair(k2, v2),
                                       QuotedPair(k3, v3), QuotedPair(k4, v4)], '\n')))
         == map[k0 := v0][k1 := v1][k2 := v2][k3 := v3][k4 := v4]
  {
    var lines := [QuotedPair(k0, v0), QuotedPair(k1, v1), QuotedPair(k2, v2), QuotedPair(k3, v3), QuotedPair(k4, v4)];
    QuotedPairNoBreak(k0, v0);
    QuotedPairNoBreak(k1, v1);
    QuotedPairNoBreak(k2, v2);
    QuotedPairNoBreak(k3, v3);
    QuotedPairNoBreak(k4, v4);
    assert NoLineBreaks(lines) by {
      forall k, i | 0 <= k < |lines| && 0 <= i < |lines[k]| ensures !IsLineBreak(lines[k][i]) {
        assert NoBreak(lines[k]);
      }
    }
    assert |lines[4]| > 0;
    SplitJoinNewline(lines);
    FivePairs(k0, v0, k1, v1, k2, v2, k3, v3, k4, v4);
  }

  /** The keys of the store's test hold no quote and no line break. */
  lemma TestKeysPlain()
    ensures NoQuote("appid") && NoBreak("appid") && NoQuote("name") && NoBreak("name")
    ensures NoQuote("BytesDownloaded") && NoBreak("BytesDownloaded")
    ensures NoQuote("BytesToDownload") && NoBreak("BytesToDownload")
    ensures NoQuote("StateFlags") && NoBreak("StateFlags")
  {
  }

  /** The values of the store's test hold no quote and no line break. */
  lemma TestValuesPlain()
    ensures NoQuote("123") && NoBreak("123") && NoQuote("Test Game") && NoBreak("Test Game")
    ensures NoQuote("100") && NoBreak("100") && NoQuote("1000") && NoBreak("1000")
    ensures NoQuote("0") && NoBreak("0")
  {
  }

  /** The manifest text of the store's test, `"\n".join` of its five lines,
      parses to its five fields. */
  lemma TestManifestText()
    ensures KeyValues(SplitLines(Join([QuotedPair("appid", "123"), QuotedPair("name", "Test Game"),
                                       QuotedPair("BytesDownloaded", "100"), QuotedPair("BytesToDownload", "1000"),
                                       QuotedPair("StateFlags", "0")], '\n')))
         == map["appid" := "123", "name" := "Test Game", "BytesDownloaded" := "100",
                "BytesToDownload" := "1000", "StateFlags" := "0"]
  {
    TestKeysPlain();
    TestValuesPlain();
    FivePairsText("appid", "123", "name", "Test Game", "BytesDownloaded", "100",
                  "BytesToDownload", "1000", "StateFlags", "0");
  }

  /** `appmanifest_(\d+)\.acf` (case-insensitive) matched at `i`: the end of the
      digit run, when the match succeeds there. */
  function FilenameMatchAt(s: string, i: nat): Option<nat>
    requires i <= |s|
  {
    if i + 12 > |s| || Lower(s[i..i + 12]) != "appmanifest_" then None
    else
      var d := DigitRunEnd(s, i + 12);
      if d == i + 12 || d + 4 > |s| || Lower(s[d..d + 4]) != ".acf" then None
      else Some(d)
  }

  /** The end of the run of decimal digits that starts at `i`. */
  function DigitRunEnd(s: string, i: nat): (j: nat)
    requires i <= |s|
    ensures i <= j <= |s| && (j == |s| || !IsDigit(s[j]))
    ensures forall k :: i <= k < j ==> IsDigit(s[k])
    decreases |s| - i
  {
    if i < |s| && IsDigit(s[i]) then DigitRunEnd(s, i + 1) else i
  }

  /** The search for the file-name pattern from position `i` on. */
  function SearchAppId(s: string, i: nat): Option<string>
    requires i <= |s|
    decreases |s| - i
  {
    match FilenameMatchAt(s, i)
    case Some(d) => Some(s[i + 12..d])
    case None => if i == |s| then None else SearchAppId(s, i + 1)
  }

  /** `AppManifestStore._appid_from_filename`. */
  function AppIdFromFilename(filename: string): Option<string> {
    SearchAppId(filename, 0)
  }

  /** The id is read back from a standard manifest file name. */
  lemma AppIdFromStandardName(n: nat)
    ensures AppIdFromFilename("appmanifest_" + NatToString(n) + ".acf") == Some(NatToString(n))
  {
    var digits := NatToString(n);
    var s := "appmanifest_" + digits + ".acf";
    assert s[..12] == "appmanifest_";
    assert Lower("appmanifest_") == "appmanifest_";
    assert forall k :: 12 <= k < 12 + |digits| ==> s[k] == digits[k - 12];
    assert s[12 + |digits|] == '.';
    assert DigitRunEnd(s, 12) == 12 + |digits|;
    assert s[12 + |digits|..12 + |digits| + 4] == ".acf";
    assert Lower(".acf") == ".acf";
    assert s[12..12 + |digits|] == digits;
  }

  /** An id found in a file name is a non-empty run of digits. */
  lemma {:induction false} AppIdFromFilenameIsDigits(s: string, i: nat)
    requires i <= |s| && SearchAppId(s, i).Some?
    ensures var id := SearchAppId(s, i).value;
      id != [] && forall k :: 0 <= k < |id| ==> IsDigit(id[k])
    decreases |s| - i
  {
    if FilenameMatchAt(s, i).None? {
      AppIdFromFilenameIsDigits(s, i + 1);
    }
  }

  /** `AppManifestStore._to_int`: `int(value)`, with 0 when the value is
      missing or is not an integer. */
  function FieldToInt(value: Option<string>): int {
    match value
    case None => 0
    case Some(s) => if ParseInt(s).Some? then ParseInt(s).value else 0
  }

  /** `data.get(key) or fallback`: a missing or empty value gives the fallback. */
  function GetOr(data: map<string, string>, key: string, fallback: Option<string>): Option<string> {
    if key in data && data[key] != "" then Some(data[key]) else fallback
  }

  function Get(data: map<string, string>, key: string): Option<string> {
    if key in data then Some(data[key]) else None
  }

  /** The fields `AppManifestStore._read_manifest` takes from the parsed map and
      the file name: the id from "appid" or else from the file name (no id, no
      manifest), the name from "name" or else "AppID <id>", and the counters
      through `_to_int`. */
  function ManifestFrom(data: map<string, string>, filename: string): Option<Manifest> {
    var appid := GetOr(data, "appid", AppIdFromFilename(filename));
    if appid.None? || appid.value == "" then None
    else
      var name := GetOr(data, "name", Some("AppID " + appid.value)).value;
      Some(Manifest(appid.value, name,
                    FieldToInt(Get(data, "BytesDownloaded")),
                    FieldToInt(Get(data, "BytesToDownload")),
                    FieldToInt(Get(data, "StateFlags"))))
  }

  /** A manifest is produced exactly when an id is found, in the map or in the
      file name; its id and name are never empty, and the name falls back to
      "AppID <id>". */
  lemma ManifestFromFields(data: map<string, string>, filename: string)
    ensures ManifestFrom(data, filename).Some? <==>
      (("appid" in data && data["appid"] != "") || (AppIdFromFilename(filename).Some? && AppIdFromFilename(filename).value != ""))
    ensures ManifestFrom(data, filename).Some? ==>
      var m := ManifestFrom(data, filename).value;
      m.appid != "" && m.name != ""
      && (m.appid == if "appid" in data && data["appid"] != "" then data["appid"] else AppIdFromFilename(filename).value)
      && (m.name == if "name" in data && data["name"] != "" then data["name"] else "AppID " + m.appid)
  {
  }

  /** `_to_int` reads back the decimal rendering of a count. */
  lemma FieldOfNat(data: map<string, string>, key: string, n: nat)
    requires key in data && data[key] == NatToString(n)
    ensures FieldToInt(Get(data, key)) == n
  {
    ParseIntOfNat(n);
  }

  /** A manifest whose map carries an id, a name and decimal counters reads
      back as exactly those fields, whatever the file name. */
  lemma ManifestOfFields(id: string, name: string, downloaded: nat, total: nat, flags: nat, filename: string)
    requires id != "" && name != ""
    ensures var data := map["appid" := id, "name" := name, "BytesDownloaded" := NatToString(downloaded),
                            "BytesToDownload" := NatToString(total), "StateFlags" := NatToString(flags)];
      ManifestFrom(data, filename) == Some(Manifest(id, name, downloaded, total, flags))
  {
    var data := map["appid" := id, "name" := name, "BytesDownloaded" := NatToString(downloaded),
                     "BytesToDownload" := NatToString(total), "StateFlags" := NatToString(flags)];
    assert GetOr(data, "appid", AppIdFromFilename(filename)) == Some(id);
    assert GetOr(data, "name", Some("AppID " + id)) == Some(name);
    assert "BytesDownloaded" in data && data["BytesDownloaded"] == NatToString(downloaded);
    FieldOfNat(data, "BytesDownloaded", downloaded);
    assert "BytesToDownload" in data && data["BytesToDownload"] == NatToString(total);
    FieldOfNat(data, "BytesToDownload", total);
    assert "StateFlags" in data && data["StateFlags"] == NatToString(flags);
    FieldOfNat(data, "StateFlags", flags);
  }

  lemma Digits100() ensures NatToString(100) == "100" {
    assert DigitChar(1) == '1' && DigitChar(0) == '0';
    assert NatToString(1) == "1";
    assert NatToString(10) == "1" + "0";
    assert NatToString(100) == "10" + "0";
  }

  lemma Digits1000() ensures NatToString(1000) == "1000" {
    Digits100();
    assert DigitChar(0) == '0';
    assert NatToString(1000) == "100" + "0";
  }

  lemma Digits0() ensures NatToString(0) == "0" {
    assert DigitChar(0) == '0';
  }

  /** The manifest of the store's test reads back with 900 bytes remaining;
      the id comes from the map, so any file name gives the same result. */
  lemma TestManifest(filename: string)
    ensures var data := map["appid" := "123", "name" := "Test Game", "BytesDownloaded" := "100",
                            "BytesToDownload" := "1000", "StateFlags" := "0"];
      ManifestFrom(data, filename) == Some(Manifest("123", "Test Game", 100, 1000, 0))
      && RemainingBytes(ManifestFrom(data, filename).value) == 900
  {
    ManifestOfFields("123", "Test Game", 100, 1000, 0, filename);
    Digits100();
    Digits1000();
    Digits0();
  }
}
