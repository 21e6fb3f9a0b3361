/** The content-log status parser (`ContentLogParser.parse`, steam.py): a
    backward scan for the last "AppID N update started" line, a forward scan
    for the last pause, resume and rate signals, index comparisons that
    decide the status and the rate, and carry-over from the previous
    snapshot. */
module LogParser {
  import opened Common
  import opened Text

  datatype Status = Downloading | Paused | Unknown

  /** `DownloadSnapshot`: the active app id, the verbatim rate text and the status. */
  datatype Snapshot = Snapshot(appid: Option<string>, rate: Option<string>, status: Status)

  /** What the rate pattern captures on a line: the number text and the unit text. */
  datatype RateMatch = RateMatch(number: string, unit: string)

  /** The parser's compiled patterns, kept abstract. `started` is the id captured
      by `AppID\s+(\d+)\s+update started`; `suspended`, `canceled` and `resumed`
      are whether the pause, cancel and resume patterns occur on the line;
      `rate` is the capture of `Current download rate:\s*([0-9.]+)\s*([A-Za-z/]+)`;
      `toFloat` is `_to_float`, which fails on text `float()` rejects. */
  datatype Patterns = Patterns(
    started: string -> Option<string>,
    suspended: string -> bool,
    canceled: string -> bool,
    resumed: string -> bool,
    rate: string -> Option<RateMatch>,
    toFloat: string -> Option<real>)

  /** The rate text the parser reports for a match: number, one space, unit. */
  function RateText(m: RateMatch): string {
    m.number + " " + m.unit
  }

  /** The zero-rate marker a paused download reports. */
  const ZeroRate: string := "0 Mbps"

  /** `f"AppID {active_appid}" if active_appid else None`. */
  function Token(appid: Option<string>): (t: Option<string>)
    ensures t.Some? <==> appid.Some? && appid.value != ""
    ensures t.Some? ==> t.value == "AppID " + appid.value
  {
    if appid.Some? && appid.value != "" then Some("AppID " + appid.value) else None
  }

  /** The case-sensitive substring test `token in line`. */
  predicate Names(token: Option<string>, line: string) {
    token.Some? && Contains(line, token.value)
  }

  /** A line that pauses the active title: it names the token and matches the
      suspended or the canceled pattern. */
  predicate IsPause(p: Patterns, token: Option<string>, line: string) {
    Names(token, line) && (p.suspended(line) || p.canceled(line))
  }

  /** A line that resumes the active title; a pause on the same line wins. */
  predicate IsResume(p: Patterns, token: Option<string>, line: string) {
    Names(token, line) && !(p.suspended(line) || p.canceled(line)) && p.resumed(line)
  }

  /** Index of the last "update started" line below `hi`. */
  function LastStart(p: Patterns, lines: seq<string>, hi: nat): (r: Option<nat>)
    requires hi <= |lines|
    ensures r.Some? ==> r.value < hi && p.started(lines[r.value]).Some?
    ensures r.Some? ==> forall k :: r.value < k < hi ==> p.started(lines[k]).None?
    ensures r.None? ==> forall k :: 0 <= k < hi ==> p.started(lines[k]).None?
  {
    if hi == 0 then None
    else if p.started(lines[hi - 1]).Some? then Some(hi - 1)
    else LastStart(p, lines, hi - 1)
  }

  /** The variables of the forward scan: the last pause, resume and rate indices,
      the parsed rate value and the rate text. */
  datatype Signals = Signals(
    pauseIdx: Option<nat>,
    resumeIdx: Option<nat>,
    rateIdx: Option<nat>,
    rateValue: Option<real>,
    rate: Option<string>)

  const NoSignals: Signals := Signals(None, None, None, None, None)

  /** One iteration of the forward scan, on line `idx`. */
  function ScanStep(p: Patterns, token: Option<string>, s: Signals, idx: nat, line: string): Signals {
    var s1 :=
      if IsPause(p, token, line) then s.(pauseIdx := Some(idx))
      else if IsResume(p, token, line) then s.(resumeIdx := Some(idx))
      else s;
    match p.rate(line)
    case None => s1
    case Some(m) => s1.(rateIdx := Some(idx), rateValue := p.toFloat(m.number), rate := Some(RateText(m)))
  }

  /** The forward scan over `lines[lo..hi]`. */
  function Scan(p: Patterns, token: Option<string>, lines: seq<string>, lo: nat, hi: nat): Signals
    requires lo <= hi <= |lines|
    decreases hi
  {
    if hi == lo then NoSignals
    else ScanStep(p, token, Scan(p, token, lines, lo, hi - 1), hi - 1, lines[hi - 1])
  }

  /** The status rules, in priority order. */
  function DecideStatus(s: Signals): Status {
    if s.pauseIdx.Some? && (s.resumeIdx.None? || s.pauseIdx.value >= s.resumeIdx.value) then Paused
    else if s.resumeIdx.Some? then Downloading
    else if s.rateValue.Some? then (if s.rateValue.value <= 0.0 then Paused else Downloading)
    else Unknown
  }

  /** A rate line that is stale for a download: missing, before the resume, or
      at or before the pause. */
  predicate StaleRate(s: Signals) {
    s.rateIdx.None?
    || (s.resumeIdx.Some? && s.rateIdx.value < s.resumeIdx.value)
    || (s.pauseIdx.Some? && s.rateIdx.value <= s.pauseIdx.value)
  }

  /** The rate rules: paused forces the zero marker, a download drops a stale
      rate, an unknown status keeps whatever rate text was captured. */
  function DecideRate(s: Signals, status: Status): Option<string> {
    if status == Paused then Some(ZeroRate)
    else if status == Downloading then (if StaleRate(s) then None else s.rate)
    else s.rate
  }

  /** The carry-over from the previous snapshot. */
  function CarryOver(appid: Option<string>, status: Status, rate: Option<string>, previous: Option<Snapshot>): Snapshot {
    match previous
    case None => Snapshot(appid, rate, status)
    case Some(prev) =>
      var a := if appid.None? then prev.appid else appid;
      var st := if status == Unknown then prev.status else status;
      var r := if rate.None? && st == Downloading && prev.status == Downloading && prev.appid == a
               then prev.rate else rate;
      Snapshot(a, r, st)
  }

  /** The start of the signal window: the last "update started" line, or 0. */
  function WindowStart(p: Patterns, lines: seq<string>): nat {
    var st := LastStart(p, lines, |lines|);
    if st.Some? then st.value else 0
  }

  /** The id captured on the last "update started" line, if any. */
  function ActiveId(p: Patterns, lines: seq<string>): Option<string> {
    var st := LastStart(p, lines, |lines|);
    if st.Some? then p.started(lines[st.value]) else None
  }

  /** The signals of the window that starts at the last "update started" line. */
  function WindowSignals(p: Patterns, lines: seq<string>): Signals {
    Scan(p, Token(ActiveId(p, lines)), lines, WindowStart(p, lines), |lines|)
  }

  /** What `parse` returns for the lines of the tail text and the previous snapshot. */
  function ParseLines(p: Patterns, lines: seq<string>, previous: Option<Snapshot>): Snapshot {
    var sig := WindowSignals(p, lines);
    var status := DecideStatus(sig);
    CarryOver(ActiveId(p, lines), status, DecideRate(sig, status), previous)
  }

  /** The backward scan of `parse`: the last "update started" line and its id. */
  method FindStart(p: Patterns, lines: seq<string>) returns (activeId: Option<string>, startIdx: nat)
    ensures activeId == ActiveId(p, lines) && startIdx == WindowStart(p, lines)
  {
    activeId := None;
    startIdx := 0;
    var idx: int := |lines| - 1;
    while idx >= 0
      invariant -1 <= idx < |lines|
      invariant LastStart(p, lines, |lines|) == LastStart(p, lines, idx + 1)
    {
      var m := p.started(lines[idx]);
      if m.Some? {
        activeId := m;
        startIdx := idx;
        return;
      }
      idx := idx - 1;
    }
  }

  /** The forward scan of `parse` over the window from `startIdx`. */
  method ScanWindow(p: Patterns, token: Option<string>, lines: seq<string>, startIdx: nat) returns (sig: Signals)
    requires startIdx <= |lines|
    ensures sig == Scan(p, token, lines, startIdx, |lines|)
  {
    var pauseIdx: Option<nat> := None;
    var resumeIdx: Option<nat> := None;
    var rateIdx: Option<nat> := None;
    var rateValue: Option<real> := None;
    var rate: Option<string> := None;
    var i := startIdx;
    while i < |lines|
      invariant startIdx <= i <= |lines|
      invariant Signals(pauseIdx, resumeIdx, rateIdx, rateValue, rate) == Scan(p, token, lines, startIdx, i)
    {
      var line := lines[i];
      if token.Some? && Contains(line, token.value) {
        if p.suspended(line) || p.canceled(line) {
          pauseIdx := Some(i);
        } else if p.resumed(line) {
          resumeIdx := Some(i);
        }
      }
      var m := p.rate(line);
      if m.Some? {
        rateIdx := Some(i);
        rateValue := p.toFloat(m.value.number);
        rate := Some(m.value.number + " " + m.value.unit);
      }
      i := i + 1;
    }
    sig := Signals(pauseIdx, resumeIdx, rateIdx, rateValue, rate);
  }

  /** `ContentLogParser.parse`: the backward scan, the forward scan, the
      decisions and the carry-over, as the source runs them. */
  method Parse(p: Patterns, text: string, previous: Option<Snapshot>) returns (snap: Snapshot)
    ensures snap == ParseLines(p, SplitLines(text), previous)
  {
    var lines := SplitLines(text);
    var activeId, startIdx := FindStart(p, lines);
    var token := if activeId.Some? && activeId.value != "" then Some("AppID " + activeId.value) else None;
    var sig := ScanWindow(p, token, lines, startIdx);
    var pauseIdx, resumeIdx, rateIdx, rateValue, rate :=
      sig.pauseIdx, sig.resumeIdx, sig.rateIdx, sig.rateValue, sig.rate;

    var status: Status;
    if pauseIdx.Some? && (resumeIdx.None? || pauseIdx.value >= resumeIdx.value) {
      status := Paused;
    } else if resumeIdx.Some? {
      status := Downloading;
    } else if rateValue.Some? {
      status := if rateValue.value <= 0.0 then Paused else Downloading;
    } else {
      status := Unknown;
    }

    if status == Paused {
      rate := Some("0 Mbps");
    } else if status == Downloading {
      if rateIdx.None? || (resumeIdx.Some? && rateIdx.value < resumeIdx.value)
        || (pauseIdx.Some? && rateIdx.value <= pauseIdx.value) {
        rate := None;
      }
    }

    if previous.Some? {
      var prev := previous.value;
      if activeId.None? {
        activeId := prev.appid;
      }
      if status == Unknown {
        status := prev.status;
      }
      if rate.None? && status == Downloading && prev.status == Downloading && prev.appid == activeId {
        rate := prev.rate;
      }
    }
    snap := Snapshot(activeId, rate, status);
  }
}
