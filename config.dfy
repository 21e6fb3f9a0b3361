/** The configuration validators of `ConfigLoader`: the converters that turn a
    JSON value into a checked setting, the `.env` line rule that fills the
    environment without overwriting it, and the `;`-separated environment
    lists. */
module Config {
  import opened Common
  import opened Text

  /** A value as `json.loads` produces it. */
  datatype Json =
    | JNull
    | JBool(b: bool)
    | JInt(i: int)
    | JFloat(f: real)
    | JStr(s: string)
    | JList(items: seq<Json>)
    | JObject(fields: map<string, Json>)

  /** Python truthiness: `None`, `False`, zero, "" and empty containers are false. */
  predicate Truthy(v: Json) {
    match v
    case JNull => false
    case JBool(b) => b
    case JInt(i) => i != 0
    case JFloat(f) => f != 0.0
    case JStr(s) => s != []
    case JList(items) => items != []
    case JObject(fields) => fields != map[]
  }

  /** `d.get(key)`: the value, or `None` when the key is absent. */
  function Get(fields: map<string, Json>, key: string): Json {
    if key in fields then fields[key] else JNull
  }

  /** `a or b`. */
  function Or(a: Json, b: Json): Json {
    if Truthy(a) then a else b
  }

  // ---------------------------------------------------------------------
  // Integers

  /** `int(f)` for a float: truncation toward zero. */
  function Truncate(f: real): int {
    if f >= 0.0 then f.Floor else -((-f).Floor)
  }

  /** `int(value)`, or `None` where Python raises `TypeError`/`ValueError`. */
  function IntOf(v: Json): Option<int> {
    match v
    case JBool(b) => Some(if b then 1 else 0)
    case JInt(i) => Some(i)
    case JFloat(f) => Some(Truncate(f))
    case JStr(s) => ParseInt(s)
    case _ => None
  }

  /** `_to_int`: the integer value, rejected when it cannot be read as one or
      lies below the optional lower bound. */
  function ToInt(v: Json, name: string, minValue: Option<int>): (r: Result<int>)
    ensures r.Ok? <==> IntOf(v).Some? && (minValue.None? || IntOf(v).value >= minValue.value)
    ensures r.Ok? ==> r.value == IntOf(v).value
    ensures r.Ok? && minValue.Some? ==> r.value >= minValue.value
    ensures IntOf(v).None? ==> r == Err("Invalid integer for " + name)
    ensures IntOf(v).Some? && r.Err? ==>
      minValue.Some? && r.message == "Value for " + name + " must be >= " + IntToString(minValue.value)
  {
    match IntOf(v)
    case None => Err("Invalid integer for " + name)
    case Some(n) =>
      if minValue.Some? && n < minValue.value then
        Err("Value for " + name + " must be >= " + IntToString(minValue.value))
      else Ok(n)
  }

  /** `int()` of a float drops the fraction toward zero. */
  lemma TruncateTowardZero(f: real)
    ensures f >= 0.0 ==> 0.0 <= Truncate(f) as real <= f < Truncate(f) as real + 1.0
    ensures f < 0.0 ==> Truncate(f) as real - 1.0 < f <= Truncate(f) as real <= 0.0
  {
  }

  /** The decimal text of a count passes the bound exactly when the count does. */
  lemma ToIntOfDecimal(n: nat, name: string, m: int)
    ensures ToInt(JStr(NatToString(n)), name, Some(m)).Ok? <==> n >= m
    ensures n >= m ==> ToInt(JStr(NatToString(n)), name, Some(m)) == Ok(n)
  {
    ParseIntOfNat(n);
  }

  /** A JSON integer is returned unchanged when it meets the bound. */
  lemma ToIntOfInt(i: int, name: string, m: int)
    ensures ToInt(JInt(i), name, Some(m)) == if i >= m then Ok(i) else Err("Value for " + name + " must be >= " + IntToString(m))
  {
  }

  /** `null`, lists and objects are never integers. */
  lemma ToIntRejectsStructures(v: Json, name: string, minValue: Option<int>)
    requires v.JNull? || v.JList? || v.JObject?
    ensures ToInt(v, name, minValue) == Err("Invalid integer for " + name)
  {
  }

  // ---------------------------------------------------------------------
  // Strings

  /** `_to_str`: a non-blank string, stripped; anything else is an error. */
  function ToStr(v: Json, name: string): (r: Result<string>)
    ensures r.Ok? <==> v.JStr? && !IsBlank(v.s)
    ensures r.Ok? ==> r.value == Strip(v.s) && r.value != []
    ensures r.Err? ==> r.message == "Missing or empty value for " + name
  {
    StripEmptyIffBlank(if v.JStr? then v.s else []);
    if v.JStr? && Strip(v.s) != [] then Ok(Strip(v.s))
    else Err("Missing or empty value for " + name)
  }

  /** `_to_optional_str`: as `_to_str`, with `None` in place of the error. */
  function ToOptionalStr(v: Json): (r: Option<string>)
    ensures r.Some? <==> v.JStr? && !IsBlank(v.s)
    ensures r.Some? ==> r.value == Strip(v.s) && r.value != []
  {
    StripEmptyIffBlank(if v.JStr? then v.s else []);
    if v.JStr? && Strip(v.s) != [] then Some(Strip(v.s)) else None
  }

  /** The two string converters accept the same values and agree on them. */
  lemma OptionalStrAgrees(v: Json, name: string)
    ensures ToOptionalStr(v).Some? <==> ToStr(v, name).Ok?
    ensures ToOptionalStr(v).Some? ==> ToOptionalStr(v).value == ToStr(v, name).value
  {
  }

  /** A converted string is already stripped: converting it again gives it back. */
  lemma ToStrIdempotent(v: Json, name: string)
    requires ToStr(v, name).Ok?
    ensures ToStr(JStr(ToStr(v, name).value), name) == ToStr(v, name)
  {
    var t := Strip(v.s);
    StripEnds(v.s);
    StripNoop(t);
    StripEmptyIffBlank(t);
  }

  // ---------------------------------------------------------------------
  // Log level

  const LogLevels: set<string> := {"DEBUG", "INFO", "WARNING", "ERROR", "CRITICAL"}

  /** `_to_log_level`: the stripped, upper-cased value when it names a level. */
  function ToLogLevel(v: Json, name: string): (r: Result<string>)
    ensures r.Ok? ==> r.value in LogLevels
    ensures r.Ok? <==> v.JStr? && Upper(Strip(v.s)) in LogLevels
    ensures r.Ok? ==> r.value == Upper(Strip(v.s))
    ensures r.Err? ==> r.message == "Invalid log level for " + name
  {
    assert [] !in LogLevels;
    if v.JStr? && Strip(v.s) != [] && Upper(Strip(v.s)) in LogLevels then Ok(Upper(Strip(v.s)))
    else Err("Invalid log level for " + name)
  }

  /** Each level name, in any letter case and with surrounding whitespace,
      is accepted as that level. */
  lemma LogLevelAnyCase(level: string, w1: string, w2: string, name: string)
    requires level in LogLevels
    requires IsBlank(w1) && IsBlank(w2)
    ensures forall cased: string :: |cased| == |level| && Upper(cased) == level ==>
      ToLogLevel(JStr(w1 + cased + w2), name) == Ok(level)
  {
    forall cased: string | |cased| == |level| && Upper(cased) == level
      ensures ToLogLevel(JStr(w1 + cased + w2), name) == Ok(level)
    {
      StripPadded(w1, cased, w2);
    }
  }

  /** Stripping blank padding off text with non-blank ends gives the text. */
  lemma StripPadded(w1: string, t: string, w2: string)
    requires IsBlank(w1) && IsBlank(w2)
    requires t != [] && Trimmed(t)
    ensures Strip(w1 + t + w2) == t
  {
    var s := w1 + t + w2;
    TrimStartBlank(w1, t + w2);
    assert s == w1 + (t + w2);
    TrimEndBlank(t, w2);
  }

  lemma {:induction false} TrimStartBlank(w: string, t: string)
    requires IsBlank(w)
    requires t != [] && !IsSpace(t[0])
    ensures TrimStart(w + t) == t
    decreases |w|
  {
    if w != [] {
      assert (w + t)[0] == w[0] && IsSpace(w[0]);
      assert (w + t)[1..] == w[1..] + t;
      TrimStartBlank(w[1..], t);
    } else {
      assert w + t == t;
    }
  }

  lemma {:induction false} TrimEndBlank(t: string, w: string)
    requires IsBlank(w)
    requires t != [] && !IsSpace(t[|t| - 1])
    ensures TrimEnd(t + w) == t
    decreases |w|
  {
    if w != [] {
      assert (t + w)[|t + w| - 1] == w[|w| - 1] && IsSpace(w[|w| - 1]);
      assert (t + w)[..|t + w| - 1] == t + w[..|w| - 1];
      TrimEndBlank(t, w[..|w| - 1]);
    } else {
      assert t + w == t;
    }
  }

  // ---------------------------------------------------------------------
  // Lists

  /** `str(item)` for a JSON item. Strings, integers, booleans and `null`
      render as Python does; the text of floats, lists and objects is a
      stand-in that keeps only what the filters depend on: it is never blank. */
  function Render(item: Json): string {
    match item
    case JNull => "None"
    case JBool(b) => if b then "True" else "False"
    case JInt(i) => IntToString(i)
    case JStr(s) => s
    case JFloat(_) => "0.0"
    case JList(_) => "[]"
    case JObject(_) => "{}"
  }

  function Renders(items: seq<Json>): (texts: seq<string>)
    ensures |texts| == |items| && forall i :: 0 <= i < |items| ==> texts[i] == Render(items[i])
  {
    seq(|items|, i requires 0 <= i < |items| => Render(items[i]))
  }

  /** `[t.strip() for t in texts if t.strip()]`. */
  function KeepStripped(texts: seq<string>): seq<string> {
    DropEmpty(StripAll(texts))
  }

  function StripAll(texts: seq<string>): (r: seq<string>)
    ensures |r| == |texts| && forall i :: 0 <= i < |texts| ==> r[i] == Strip(texts[i])
  {
    seq(|texts|, i requires 0 <= i < |texts| => Strip(texts[i]))
  }

  /** The texts that are not empty, in order. */
  function DropEmpty(ts: seq<string>): seq<string> {
    if ts == [] then []
    else
      var kept := DropEmpty(ts[..|ts| - 1]);
      if ts[|ts| - 1] == [] then kept else kept + [ts[|ts| - 1]]
  }

  lemma {:induction false} DropEmptyMembers(ts: seq<string>)
    ensures |DropEmpty(ts)| <= |ts|
    ensures forall x :: x in DropEmpty(ts) <==> x != [] && x in ts
  {
    if ts != [] {
      DropEmptyMembers(ts[..|ts| - 1]);
      assert ts == ts[..|ts| - 1] + [ts[|ts| - 1]];
    }
  }

  lemma {:induction false} DropEmptyNone(ts: seq<string>)
    ensures DropEmpty(ts) == [] <==> forall i :: 0 <= i < |ts| ==> ts[i] == []
  {
    if ts != [] {
      var init := ts[..|ts| - 1];
      DropEmptyNone(init);
      if DropEmpty(ts) == [] {
        assert forall i :: 0 <= i < |init| ==> ts[i] == init[i];
      }
    }
  }

  lemma {:induction false} DropEmptyKeepsAll(ts: seq<string>)
    requires forall i :: 0 <= i < |ts| ==> ts[i] != []
    ensures DropEmpty(ts) == ts
  {
    if ts != [] {
      DropEmptyKeepsAll(ts[..|ts| - 1]);
      assert ts == ts[..|ts| - 1] + [ts[|ts| - 1]];
    }
  }

  lemma {:induction false} DropEmptyElements(ts: seq<string>)
    ensures forall k :: 0 <= k < |DropEmpty(ts)| ==> DropEmpty(ts)[k] in ts && DropEmpty(ts)[k] != []
  {
    DropEmptyMembers(ts);
    forall k | 0 <= k < |DropEmpty(ts)|
      ensures DropEmpty(ts)[k] in ts && DropEmpty(ts)[k] != []
    {
      assert DropEmpty(ts)[k] in DropEmpty(ts);
    }
  }

  /** The kept parts are exactly the non-empty stripped texts: no more, no fewer. */
  lemma KeepStrippedMembers(texts: seq<string>)
    ensures |KeepStripped(texts)| <= |texts|
    ensures forall x :: x in KeepStripped(texts) <==> x != [] && exists i :: 0 <= i < |texts| && Strip(texts[i]) == x
  {
    var ts := StripAll(texts);
    DropEmptyMembers(ts);
    forall x | x in ts ensures exists i :: 0 <= i < |texts| && Strip(texts[i]) == x {
      var i :| 0 <= i < |ts| && ts[i] == x;
    }
    forall x | exists i :: 0 <= i < |texts| && Strip(texts[i]) == x ensures x in ts {
      var i :| 0 <= i < |texts| && Strip(texts[i]) == x;
      assert ts[i] == x;
    }
  }

  /** Every kept part is non-empty and stripped. */
  lemma KeepStrippedAreStripped(texts: seq<string>)
    ensures forall k :: 0 <= k < |KeepStripped(texts)| ==>
      KeepStripped(texts)[k] != [] && Trimmed(KeepStripped(texts)[k])
  {
    var ts := StripAll(texts);
    var kept := DropEmpty(ts);
    DropEmptyElements(ts);
    forall k | 0 <= k < |kept|
      ensures kept[k] != [] && Trimmed(kept[k])
    {
      assert kept[k] in ts;
      var i :| 0 <= i < |ts| && ts[i] == kept[k];
      StripEnds(texts[i]);
    }
  }

  /** Nothing is kept exactly when every text is blank. */
  lemma KeepStrippedEmpty(texts: seq<string>)
    ensures KeepStripped(texts) == [] <==> forall i :: 0 <= i < |texts| ==> IsBlank(texts[i])
  {
    DropEmptyNone(StripAll(texts));
    forall i | 0 <= i < |texts| ensures Strip(texts[i]) == [] <==> IsBlank(texts[i]) {
      StripEmptyIffBlank(texts[i]);
    }
  }

  /** Texts that are already non-empty and stripped are all kept, in order. */
  lemma KeepStrippedKeepsStripped(texts: seq<string>)
    requires forall i :: 0 <= i < |texts| ==> texts[i] != [] && Trimmed(texts[i])
    ensures KeepStripped(texts) == texts
  {
    forall i | 0 <= i < |texts| ensures Strip(texts[i]) == texts[i] {
      StripNoop(texts[i]);
    }
    assert StripAll(texts) == texts;
    DropEmptyKeepsAll(texts);
  }

  /** `[str(item).strip() for item in items if str(item).strip()]`. */
  function Items(items: seq<Json>): seq<string> {
    KeepStripped(Renders(items))
  }

  /** `_to_list`: the stripped non-blank items of a list; an error for
      anything that is not a list, or when no item survives. */
  function ToList(v: Json, name: string): (r: Result<seq<string>>)
    ensures r.Ok? <==> v.JList? && Items(v.items) != []
    ensures r.Ok? ==> r.value == Items(v.items)
    ensures r.Err? ==> r.message == "Missing or empty list for " + name
  {
    if v.JList? && v.items != [] && Items(v.items) != [] then Ok(Items(v.items))
    else Err("Missing or empty list for " + name)
  }

  /** A JSON list of strings. */
  function Strings(ss: seq<string>): (v: Json)
    ensures v.JList? && |v.items| == |ss| && forall i :: 0 <= i < |ss| ==> v.items[i] == JStr(ss[i])
  {
    JList(seq(|ss|, i requires 0 <= i < |ss| => JStr(ss[i])))
  }

  /** A list of strings is accepted exactly when one of them is not blank,
      and then each non-blank one comes out stripped. */
  lemma ToListOfStrings(ss: seq<string>, name: string)
    ensures ToList(Strings(ss), name).Ok? <==> exists i :: 0 <= i < |ss| && !IsBlank(ss[i])
    ensures forall x :: x in Items(Strings(ss).items) <==> x != [] && exists i :: 0 <= i < |ss| && Strip(ss[i]) == x
  {
    assert Renders(Strings(ss).items) == ss;
    KeepStrippedEmpty(ss);
    KeepStrippedMembers(ss);
  }

  /** `_to_candidates`: the stripped non-blank items of a list; for an object,
      the platform's entry, else its "default" entry (each taken only when
      truthy), and only if that entry is a list; anything else gives none. */
  function ToCandidates(v: Json, platformKey: string): seq<string> {
    match v
    case JList(items) => Items(items)
    case JObject(fields) =>
      var raw := Or(Get(fields, platformKey), Or(Get(fields, "default"), JList([])));
      if raw.JList? then Items(raw.items) else []
    case _ => []
  }

  /** A truthy platform entry decides: a list gives its items, anything else
      gives none even when a "default" list is present. */
  lemma CandidatesFromPlatform(fields: map<string, Json>, platformKey: string)
    requires platformKey in fields && Truthy(fields[platformKey])
    ensures fields[platformKey].JList? ==> ToCandidates(JObject(fields), platformKey) == Items(fields[platformKey].items)
    ensures !fields[platformKey].JList? ==> ToCandidates(JObject(fields), platformKey) == []
  {
  }

  /** A missing or falsy platform entry falls back to "default". */
  lemma CandidatesFallBack(fields: map<string, Json>, platformKey: string)
    requires platformKey !in fields || !Truthy(fields[platformKey])
    ensures ToCandidates(JObject(fields), platformKey) ==
      if "default" in fields && fields["default"].JList? then Items(fields["default"].items) else []
  {
  }

  /** Where both list converters accept a value they agree, and a list the
      strict one rejects gives no candidates. */
  lemma CandidatesAgreeWithList(v: Json, name: string, platformKey: string)
    requires v.JList?
    ensures ToList(v, name).Ok? ==> ToCandidates(v, platformKey) == ToList(v, name).value
    ensures ToList(v, name).Err? ==> ToCandidates(v, platformKey) == []
  {
  }

  /** Every candidate is a non-empty stripped path. */
  lemma CandidatesAreStripped(v: Json, platformKey: string)
    ensures forall k :: 0 <= k < |ToCandidates(v, platformKey)| ==>
      ToCandidates(v, platformKey)[k] != [] && Trimmed(ToCandidates(v, platformKey)[k])
  {
    match v
    case JList(items) => KeepStrippedAreStripped(Renders(items));
    case JObject(fields) =>
      var raw := Or(Get(fields, platformKey), Or(Get(fields, "default"), JList([])));
      if raw.JList? { KeepStrippedAreStripped(Renders(raw.items)); }
    case _ =>
  }

  // ---------------------------------------------------------------------
  // Environment lists

  /** `env_list(name)`: the `;`-separated parts of the variable, stripped,
      blanks dropped; `None` when the variable is unset or nothing remains. */
  function EnvList(env: map<string, string>, prefix: string, name: string): Option<seq<string>> {
    if prefix + name !in env then None
    else
      var parts := KeepStripped(Split(env[prefix + name], ';'));
      if parts == [] then None else Some(parts)
  }

  /** The list is missing exactly when the variable is unset or all its
      parts are blank. */
  lemma EnvListNone(env: map<string, string>, prefix: string, name: string)
    ensures EnvList(env, prefix, name).None? <==>
      prefix + name !in env || forall p :: p in Split(env[prefix + name], ';') ==> IsBlank(p)
  {
    if prefix + name in env {
      KeepStrippedEmpty(Split(env[prefix + name], ';'));
    }
  }

  /** Each part of a list is non-empty, stripped and free of `;`. */
  lemma EnvListParts(env: map<string, string>, prefix: string, name: string)
    requires EnvList(env, prefix, name).Some?
    ensures forall k :: 0 <= k < |EnvList(env, prefix, name).value| ==>
      var p := EnvList(env, prefix, name).value[k];
      p != [] && Trimmed(p) && ';' !in p
  {
    var parts := Split(env[prefix + name], ';');
    KeepStrippedAreStripped(parts);
    KeepStrippedMembers(parts);
    forall k | 0 <= k < |EnvList(env, prefix, name).value|
      ensures ';' !in EnvList(env, prefix, name).value[k]
    {
      var p := EnvList(env, prefix, name).value[k];
      assert p in KeepStripped(parts);
      var i :| 0 <= i < |parts| && Strip(parts[i]) == p;
      StripWithin(parts[i]);
    }
  }

  /** The stripped text is a slice of the original. */
  lemma StripWithin(s: string)
    ensures forall c :: c in Strip(s) ==> c in s
  {
    var t := TrimStart(s);
    assert forall c :: c in TrimEnd(t) ==> c in t;
    assert forall c :: c in t ==> c in s;
  }

  /** Writing stripped, `;`-free parts joined by `;` into the variable reads
      them back. */
  lemma EnvListJoin(env: map<string, string>, prefix: string, name: string, parts: seq<string>)
    requires |parts| >= 1
    requires forall i :: 0 <= i < |parts| ==>
      parts[i] != [] && Trimmed(parts[i]) && ';' !in parts[i]
    ensures EnvList(env[prefix + name := Join(parts, ';')], prefix, name) == Some(parts)
  {
    SplitJoin(parts, ';');
    KeepStrippedKeepsStripped(parts);
  }

  // ---------------------------------------------------------------------
  // .env files

  /** The assignment one `.env` line makes: the line is stripped; blank
      lines, comments and lines without `=` make none; the key is the
      stripped text before the first `=`, the value the stripped rest with
      double and then single quotes stripped off its ends; an empty key
      makes none. */
  function DotenvEntry(raw: string): Option<(string, string)> {
    var line := Strip(raw);
    if line == [] || line[0] == '#' then None
    else
      var i := IndexOf(line, '=');
      if i == |line| then None
      else
        var key := Strip(line[..i]);
        var value := StripChar(StripChar(Strip(line[i + 1..]), '"'), '\'');
        if key != [] then Some((key, value)) else None
  }

  /** The assignments of the lines, in order. */
  function Entries(lines: seq<string>): (es: seq<Option<(string, string)>>)
    ensures |es| == |lines| && forall i :: 0 <= i < |lines| ==> es[i] == DotenvEntry(lines[i])
  {
    seq(|lines|, i requires 0 <= i < |lines| => DotenvEntry(lines[i]))
  }

  /** The environment after the assignments, in order: one is made only when
      its key is not set yet, so existing variables and earlier lines win. */
  function ApplyAll(env: map<string, string>, es: seq<Option<(string, string)>>): map<string, string> {
    if es == [] then env
    else Assign(ApplyAll(env, es[..|es| - 1]), es[|es| - 1])
  }

  /** The environment after loading the `.env` lines. */
  function DotenvApply(env: map<string, string>, lines: seq<string>): map<string, string> {
    ApplyAll(env, Entries(lines))
  }

  /** One line's assignment, made only when the key is not set yet. */
  function Assign(env: map<string, string>, entry: Option<(string, string)>): map<string, string> {
    if entry.Some? && entry.value.0 !in env then env[entry.value.0 := entry.value.1] else env
  }

  /** An assigned key is non-empty, stripped and free of `=`. */
  lemma DotenvEntryKey(raw: string)
    requires DotenvEntry(raw).Some?
    ensures var key := DotenvEntry(raw).value.0;
      key != [] && '=' !in key && Trimmed(key)
  {
    var line := Strip(raw);
    var i := IndexOf(line, '=');
    StripWithin(line[..i]);
    StripEnds(line[..i]);
  }

  /** The environment `os.environ` stands for: a map updated in place. */
  class Environment {
    var vars: map<string, string>

    constructor(vars0: map<string, string>)
      ensures vars == vars0
    {
      vars := vars0;
    }

    /** `_load_dotenv` on the text of an existing file. */
    method LoadDotenv(text: string)
      modifies this
      ensures vars == DotenvApply(old(vars), SplitLines(text))
    {
      var lines := SplitLines(text);
      var i := 0;
      while i < |lines|
        invariant 0 <= i <= |lines|
        invariant vars == ApplyAll(old(vars), Entries(lines)[..i])
      {
        AssignIfUnset(DotenvEntry(lines[i]));
        assert Entries(lines)[..i + 1][..i] == Entries(lines)[..i];
        i := i + 1;
      }
      assert Entries(lines)[..|lines|] == Entries(lines);
    }

    /** One line's assignment, made only when the key is not set yet. */
    method AssignIfUnset(entry: Option<(string, string)>)
      modifies this
      ensures vars == Assign(old(vars), entry)
    {
      if entry.Some? && entry.value.0 !in vars {
        vars := vars[entry.value.0 := entry.value.1];
      }
    }
  }

  /** Applying assignments never changes or removes a variable that is already set. */
  lemma {:induction false} ApplyKeepsExisting(env: map<string, string>, es: seq<Option<(string, string)>>)
    ensures forall k :: k in env ==> k in ApplyAll(env, es) && ApplyAll(env, es)[k] == env[k]
  {
    if es != [] {
      ApplyKeepsExisting(env, es[..|es| - 1]);
    }
  }

  /** Loading never changes or removes a variable that is already set. */
  lemma DotenvKeepsExisting(env: map<string, string>, lines: seq<string>)
    ensures forall k :: k in env ==> k in DotenvApply(env, lines) && DotenvApply(env, lines)[k] == env[k]
  {
    ApplyKeepsExisting(env, Entries(lines));
  }

  /** The variables afterwards are the existing ones plus the assigned keys. */
  lemma {:induction false} ApplyKeys(env: map<string, string>, es: seq<Option<(string, string)>>)
    ensures forall k :: k in ApplyAll(env, es) <==>
      k in env || exists i :: 0 <= i < |es| && es[i].Some? && es[i].value.0 == k
  {
    if es != [] {
      var init := es[..|es| - 1];
      ApplyKeys(env, init);
      forall k | k in ApplyAll(env, es)
        ensures k in env || exists i :: 0 <= i < |es| && es[i].Some? && es[i].value.0 == k
      {
        if k in ApplyAll(env, init) && k !in env {
          var i :| 0 <= i < |init| && init[i].Some? && init[i].value.0 == k;
          assert es[i] == init[i];
        }
      }
      forall k | k in env || exists i :: 0 <= i < |es| && es[i].Some? && es[i].value.0 == k
        ensures k in ApplyAll(env, es)
      {
        if k !in env {
          var i :| 0 <= i < |es| && es[i].Some? && es[i].value.0 == k;
          if i < |init| {
            assert init[i] == es[i];
          }
        }
      }
    }
  }

  /** The variables after loading are the existing ones plus the keys the lines assign. */
  lemma DotenvKeys(env: map<string, string>, lines: seq<string>)
    ensures forall k :: k in DotenvApply(env, lines) <==>
      k in env || exists i :: 0 <= i < |lines| && DotenvEntry(lines[i]).Some? && DotenvEntry(lines[i]).value.0 == k
  {
    ApplyKeys(env, Entries(lines));
  }

  /** A key that is not set yet takes the value of the first assignment to it. */
  lemma {:induction false} ApplyFirstWins(env: map<string, string>, es: seq<Option<(string, string)>>, i: nat)
    requires i < |es| && es[i].Some? && es[i].value.0 !in env
    requires forall j :: 0 <= j < i && es[j].Some? ==> es[j].value.0 != es[i].value.0
    ensures es[i].value.0 in ApplyAll(env, es) && ApplyAll(env, es)[es[i].value.0] == es[i].value.1
    decreases |es|
  {
    var key := es[i].value.0;
    var init := es[..|es| - 1];
    if i == |es| - 1 {
      ApplyKeys(env, init);
      assert forall j :: 0 <= j < |init| ==> init[j] == es[j];
      assert key !in ApplyAll(env, init);
    } else {
      assert init[i] == es[i];
      forall j | 0 <= j < i && init[j].Some?
        ensures init[j].value.0 != key
      {
        assert init[j] == es[j];
      }
      ApplyFirstWins(env, init, i);
      ApplyKeepsExisting(ApplyAll(env, init), [es[|es| - 1]]);
    }
  }

  /** A key that is not set yet takes the value of the first line that assigns it. */
  lemma DotenvFirstWins(env: map<string, string>, lines: seq<string>, i: nat)
    requires i < |lines| && DotenvEntry(lines[i]).Some?
    requires DotenvEntry(lines[i]).value.0 !in env
    requires forall j :: 0 <= j < i && DotenvEntry(lines[j]).Some? ==> DotenvEntry(lines[j]).value.0 != DotenvEntry(lines[i]).value.0
    ensures var (key, value) := DotenvEntry(lines[i]).value;
      key in DotenvApply(env, lines) && DotenvApply(env, lines)[key] == value
  {
    ApplyFirstWins(env, Entries(lines), i);
  }

  /** `s.strip(c)` leaves text alone that neither starts nor ends with `c`. */
  lemma StripCharNoop(s: string, c: char)
    requires s == [] || (s[0] != c && s[|s| - 1] != c)
    ensures StripChar(s, c) == s
  {
  }

  /** The assignment of a line that needs no stripping: the key before the
      first `=` and the value after it, with quotes removed. */
  lemma DotenvEntrySplit(key: string, rest: string)
    requires key != [] && Trimmed(key) && key[0] != '#' && '=' !in key
    requires Trimmed(rest)
    ensures DotenvEntry(key + "=" + rest) == Some((key, StripChar(StripChar(rest, '"'), '\'')))
  {
    var line := key + "=" + rest;
    assert line != [] && line[0] == key[0] != '#';
    assert Strip(line) == line by {
      assert line[|line| - 1] == if rest == [] then '=' else rest[|rest| - 1];
      StripNoop(line);
    }
    assert IndexOf(line, '=') == |key| < |line| by {
      assert line == key + ['='] + rest;
      IndexOfJoined(key, '=', rest);
    }
    assert Strip(line[..|key|]) == key by {
      assert line[..|key|] == key;
      StripNoop(key);
    }
    assert Strip(line[|key| + 1..]) == rest by {
      assert line[|key| + 1..] == rest;
      StripNoop(rest);
    }
    DotenvEntryAt(line, line, |key|, key, rest);
  }

  /** A line whose stripped text holds an `=` after a non-empty key assigns
      that key the unquoted text after the `=`. */
  lemma DotenvEntryAt(raw: string, line: string, i: nat, key: string, rest: string)
    requires line == Strip(raw) && line != [] && line[0] != '#'
    requires i == IndexOf(line, '=') && i < |line|
    requires key == Strip(line[..i]) && key != []
    requires rest == Strip(line[i + 1..])
    ensures DotenvEntry(raw) == Some((key, StripChar(StripChar(rest, '"'), '\'')))
  {
  }

  /** A plain `KEY=value` line, with no padding or quotes to strip, assigns
      exactly that key and value. */
  lemma DotenvEntryPlain(key: string, value: string)
    requires key != [] && Trimmed(key) && key[0] != '#' && '=' !in key
    requires Trimmed(value)
    requires value == [] || (value[0] !in "\"'" && value[|value| - 1] !in "\"'")
    ensures DotenvEntry(key + "=" + value) == Some((key, value))
  {
    DotenvEntrySplit(key, value);
    StripCharNoop(value, '"');
    StripCharNoop(value, '\'');
  }

  /** Double quotes around a value are stripped off. */
  lemma DotenvEntryQuoted(key: string, value: string)
    requires key != [] && Trimmed(key) && key[0] != '#' && '=' !in key
    requires value != [] && value[0] !in "\"'" && value[|value| - 1] !in "\"'"
    ensures DotenvEntry(key + "=\"" + value + "\"") == Some((key, value))
  {
    var quoted := "\"" + value + "\"";
    assert key + "=\"" + value + "\"" == key + "=" + quoted;
    assert Trimmed(quoted);
    DotenvEntrySplit(key, quoted);
    assert quoted == ['"'] + value + ['"'];
    StripCharEnclosed(value, '"');
    StripCharNoop(value, '\'');
  }

  /** `(c + s + c).strip(c)` is `s` when `s` neither starts nor ends with `c`. */
  lemma StripCharEnclosed(s: string, c: char)
    requires s != [] && s[0] != c && s[|s| - 1] != c
    ensures StripChar([c] + s + [c], c) == s
  {
    var t := [c] + s + [c];
    assert t[1..] == s + [c];
    var u := s + [c];
    assert u[0] != c && u[|u| - 1] == c;
    assert u[..|u| - 1] == s;
    StripCharNoop(s, c);
  }

  /** Comment lines, blank lines and lines without `=` assign nothing. */
  lemma DotenvSkips(raw: string)
    requires IsBlank(raw) || (Strip(raw) != [] && Strip(raw)[0] == '#') || '=' !in raw
    ensures DotenvEntry(raw) == None
  {
    StripEmptyIffBlank(raw);
    StripWithin(raw);
  }
}
