/** What the content-log parser promises: where the window starts, which
    signals the scan keeps, how the status and the rate are decided, and how
    the previous snapshot is carried over. */
module LogParserProps {
  import opened Common
  import opened Text
  import opened LogParser

  /** `r` is the index of the last line of `lines[lo..hi]` that satisfies `P`,
      or `None` when no line there does. */
  predicate LastOf(lines: seq<string>, lo: nat, hi: nat, P: string -> bool, r: Option<nat>)
    requires lo <= hi <= |lines|
  {
    match r
    case Some(i) => lo <= i < hi && P(lines[i]) && forall k :: i < k < hi ==> !P(lines[k])
    case None => forall k :: lo <= k < hi ==> !P(lines[k])
  }

  /** The backward scan stops at the last "update started" line. */
  lemma {:induction false} LastStartIsLast(p: Patterns, lines: seq<string>, hi: nat, i: nat)
    requires i < hi <= |lines|
    requires p.started(lines[i]).Some?
    requires forall k :: i < k < hi ==> p.started(lines[k]).None?
    ensures LastStart(p, lines, hi) == Some(i)
    decreases hi
  {
    if hi - 1 != i {
      LastStartIsLast(p, lines, hi - 1, i);
    }
  }

  /** The active id is the one on the last "update started" line, signal
      scanning starts at that line, and no previous snapshot overrides it. */
  lemma ActiveIdFromLastStart(p: Patterns, lines: seq<string>, previous: Option<Snapshot>, i: nat)
    requires i < |lines|
    requires p.started(lines[i]).Some?
    requires forall k :: i < k < |lines| ==> p.started(lines[k]).None?
    ensures ActiveId(p, lines) == p.started(lines[i])
    ensures WindowStart(p, lines) == i
    ensures ParseLines(p, lines, previous).appid == p.started(lines[i])
  {
    LastStartIsLast(p, lines, |lines|, i);
  }

  /** Without an "update started" line the window is the whole tail and the
      id comes from the previous snapshot, if there is one. */
  lemma NoStartLine(p: Patterns, lines: seq<string>, previous: Option<Snapshot>)
    requires forall k :: 0 <= k < |lines| ==> p.started(lines[k]).None?
    ensures ActiveId(p, lines) == None && WindowStart(p, lines) == 0
    ensures ParseLines(p, lines, previous).appid == if previous.Some? then previous.value.appid else None
  {
  }

  /** The forward scan keeps the index of the LAST pause line of its window. */
  lemma {:induction false} ScanFindsLastPause(p: Patterns, token: Option<string>, lines: seq<string>, lo: nat, hi: nat)
    requires lo <= hi <= |lines|
    ensures LastOf(lines, lo, hi, l => IsPause(p, token, l), Scan(p, token, lines, lo, hi).pauseIdx)
    decreases hi
  {
    if hi > lo {
      ScanFindsLastPause(p, token, lines, lo, hi - 1);
    }
  }

  /** The forward scan keeps the index of the LAST resume line of its window. */
  lemma {:induction false} ScanFindsLastResume(p: Patterns, token: Option<string>, lines: seq<string>, lo: nat, hi: nat)
    requires lo <= hi <= |lines|
    ensures LastOf(lines, lo, hi, l => IsResume(p, token, l), Scan(p, token, lines, lo, hi).resumeIdx)
    decreases hi
  {
    if hi > lo {
      ScanFindsLastResume(p, token, lines, lo, hi - 1);
    }
  }

  /** The forward scan keeps the index of the LAST rate line of its window, and
      that line's rate text and parsed value. */
  lemma {:induction false} ScanFindsLastRate(p: Patterns, token: Option<string>, lines: seq<string>, lo: nat, hi: nat)
    requires lo <= hi <= |lines|
    ensures var s := Scan(p, token, lines, lo, hi);
      LastOf(lines, lo, hi, l => p.rate(l).Some?, s.rateIdx)
      && (s.rateIdx.Some? ==>
            s.rate == Some(RateText(p.rate(lines[s.rateIdx.value]).value))
            && s.rateValue == p.toFloat(p.rate(lines[s.rateIdx.value]).value.number))
      && (s.rateIdx.None? ==> s.rate.None? && s.rateValue.None?)
    decreases hi
  {
    if hi > lo {
      ScanFindsLastRate(p, token, lines, lo, hi - 1);
    }
  }

  /** All three facts about the scan of the parser's window. */
  lemma WindowFacts(p: Patterns, lines: seq<string>)
    ensures var token := Token(ActiveId(p, lines));
      var lo := WindowStart(p, lines);
      var s := WindowSignals(p, lines);
      lo <= |lines|
      && LastOf(lines, lo, |lines|, l => IsPause(p, token, l), s.pauseIdx)
      && LastOf(lines, lo, |lines|, l => IsResume(p, token, l), s.resumeIdx)
      && LastOf(lines, lo, |lines|, l => p.rate(l).Some?, s.rateIdx)
      && (s.rateIdx.Some? ==>
            s.rate == Some(RateText(p.rate(lines[s.rateIdx.value]).value))
            && s.rateValue == p.toFloat(p.rate(lines[s.rateIdx.value]).value.number))
      && (s.rateIdx.None? ==> s.rate.None? && s.rateValue.None?)
  {
    var token := Token(ActiveId(p, lines));
    var lo := WindowStart(p, lines);
    ScanFindsLastPause(p, token, lines, lo, |lines|);
    ScanFindsLastResume(p, token, lines, lo, |lines|);
    ScanFindsLastRate(p, token, lines, lo, |lines|);
  }

  /** Pause precedence: a pause line of the active title with no resume line
      after it gives `paused` and the zero rate, whatever the rate lines say
      and whatever the previous snapshot was. */
  lemma PauseAfterLastResume(p: Patterns, lines: seq<string>, previous: Option<Snapshot>, i: nat)
    requires WindowStart(p, lines) <= i < |lines|
    requires IsPause(p, Token(ActiveId(p, lines)), lines[i])
    requires forall k :: i < k < |lines| ==> !IsResume(p, Token(ActiveId(p, lines)), lines[k])
    ensures ParseLines(p, lines, previous).status == Paused
    ensures ParseLines(p, lines, previous).rate == Some(ZeroRate)
  {
    WindowFacts(p, lines);
  }

  /** A resume line of the active title with no pause line at or after it
      gives `downloading`, whatever the previous snapshot was. */
  lemma ResumeAfterLastPause(p: Patterns, lines: seq<string>, previous: Option<Snapshot>, i: nat)
    requires WindowStart(p, lines) <= i < |lines|
    requires IsResume(p, Token(ActiveId(p, lines)), lines[i])
    requires forall k :: i < k < |lines| ==> !IsPause(p, Token(ActiveId(p, lines)), lines[k])
    ensures ParseLines(p, lines, previous).status == Downloading
  {
    WindowFacts(p, lines);
  }

  /** Without pause or resume lines in the window, the last rate line decides:
      a value at or below zero gives `paused`, above zero `downloading`. */
  lemma RateDecidesWithoutMarkers(p: Patterns, lines: seq<string>, previous: Option<Snapshot>, r: nat)
    requires WindowStart(p, lines) <= r < |lines|
    requires forall k :: WindowStart(p, lines) <= k < |lines| ==>
      !IsPause(p, Token(ActiveId(p, lines)), lines[k]) && !IsResume(p, Token(ActiveId(p, lines)), lines[k])
    requires p.rate(lines[r]).Some? && forall k :: r < k < |lines| ==> p.rate(lines[k]).None?
    requires p.toFloat(p.rate(lines[r]).value.number).Some?
    ensures var v := p.toFloat(p.rate(lines[r]).value.number).value;
      ParseLines(p, lines, previous).status == (if v <= 0.0 then Paused else Downloading)
    ensures p.toFloat(p.rate(lines[r]).value.number).value <= 0.0 ==>
      ParseLines(p, lines, previous).rate == Some(ZeroRate)
  {
    WindowFacts(p, lines);
    var s := WindowSignals(p, lines);
    assert s.rateIdx == Some(r);
  }

  /** With no marker and no parseable rate the tail gives no status of its
      own: `unknown` with no previous snapshot, the previous status otherwise. */
  lemma NoEvidenceIsUnknown(p: Patterns, lines: seq<string>)
    requires forall k :: WindowStart(p, lines) <= k < |lines| ==>
      !IsPause(p, Token(ActiveId(p, lines)), lines[k]) && !IsResume(p, Token(ActiveId(p, lines)), lines[k])
    requires forall k :: WindowStart(p, lines) <= k < |lines| && p.rate(lines[k]).Some? ==>
      p.toFloat(p.rate(lines[k]).value.number).None?
    ensures ParseLines(p, lines, None).status == Unknown
    ensures forall prev :: ParseLines(p, lines, Some(prev)).status == prev.status
  {
    WindowFacts(p, lines);
  }

  /** Without markers, a last rate line whose number `float()` rejects leaves
      the status undecided, even when an earlier rate line parses: `unknown`
      with no previous snapshot, the previous status otherwise. The rate text
      of that last line is still kept when there is no previous snapshot. */
  lemma UnparseableLastRateIsUnknown(p: Patterns, lines: seq<string>, r: nat)
    requires WindowStart(p, lines) <= r < |lines|
    requires forall k :: WindowStart(p, lines) <= k < |lines| ==>
      !IsPause(p, Token(ActiveId(p, lines)), lines[k]) && !IsResume(p, Token(ActiveId(p, lines)), lines[k])
    requires p.rate(lines[r]).Some? && forall k :: r < k < |lines| ==> p.rate(lines[k]).None?
    requires p.toFloat(p.rate(lines[r]).value.number).None?
    ensures ParseLines(p, lines, None).status == Unknown
    ensures ParseLines(p, lines, None).rate == Some(RateText(p.rate(lines[r]).value))
    ensures forall prev :: ParseLines(p, lines, Some(prev)).status == prev.status
  {
    WindowFacts(p, lines);
    assert WindowSignals(p, lines).rateIdx == Some(r);
  }

  /** `r` is a rate line that is still fresh for a download: the last rate line
      of the window, with no resume line after it and no pause line at or
      after it. */
  predicate FreshRateLine(p: Patterns, lines: seq<string>, r: nat) {
    var token := Token(ActiveId(p, lines));
    WindowStart(p, lines) <= r < |lines| && p.rate(lines[r]).Some?
    && (forall k :: r < k < |lines| ==> p.rate(lines[k]).None? && !IsResume(p, token, lines[k]))
    && (forall k :: r <= k < |lines| ==> !IsPause(p, token, lines[k]))
  }

  /** When the result is `downloading` (no previous snapshot), it carries a rate
      exactly when the last rate line is fresh, and then it is that line's text;
      a rate line before the last resume, or at or before the last pause, is
      dropped. */
  lemma DownloadingRateIsFresh(p: Patterns, lines: seq<string>)
    requires ParseLines(p, lines, None).status == Downloading
    ensures ParseLines(p, lines, None).rate.Some? <==> exists r: nat :: FreshRateLine(p, lines, r)
    ensures forall r: nat :: FreshRateLine(p, lines, r) ==>
      ParseLines(p, lines, None).rate == Some(RateText(p.rate(lines[r]).value))
  {
    WindowFacts(p, lines);
    var s := WindowSignals(p, lines);
    if ParseLines(p, lines, None).rate.Some? {
      assert FreshRateLine(p, lines, s.rateIdx.value);
    }
    forall r: nat | FreshRateLine(p, lines, r)
      ensures ParseLines(p, lines, None).rate == Some(RateText(p.rate(lines[r]).value))
    {
      assert s.rateIdx == Some(r);
      if s.resumeIdx.Some? {
        assert s.resumeIdx.value <= r;
      }
      if s.pauseIdx.Some? {
        assert s.pauseIdx.value < r;
      }
    }
  }

  /** With no previous snapshot and no "update started" or rate line, the parser
      reports no id, no rate and `unknown`. */
  lemma NothingRecognised(p: Patterns, lines: seq<string>)
    requires forall k :: 0 <= k < |lines| ==> p.started(lines[k]).None? && p.rate(lines[k]).None?
    ensures ParseLines(p, lines, None) == Snapshot(None, None, Unknown)
  {
    WindowFacts(p, lines);
  }

  /** How a previous snapshot changes what the tail alone gives: it fills in a
      missing id and an `unknown` status, and it lends its rate only to a
      download without a fresh rate, of the same title, that was downloading
      already. Any other difference is impossible. */
  lemma PreviousFillsGaps(p: Patterns, lines: seq<string>, prev: Snapshot)
    ensures var alone := ParseLines(p, lines, None); var r := ParseLines(p, lines, Some(prev));
      r.appid == (if alone.appid.None? then prev.appid else alone.appid)
      && r.status == (if alone.status == Unknown then prev.status else alone.status)
      && (r.rate != alone.rate ==>
            alone.rate.None? && r.status == Downloading && prev.status == Downloading
            && prev.appid == r.appid && r.rate == prev.rate)
      && (alone.rate.None? && r.status == Downloading && prev.status == Downloading && prev.appid == r.appid ==>
            r.rate == prev.rate)
  {
  }

  /** A tail with no "update started" line and no rate line keeps the previous
      id and status; the previous rate survives only when that status is
      `downloading` (a previous `paused` snapshot comes back without a rate). */
  lemma QuietTailCarriesOver(p: Patterns, lines: seq<string>, prev: Snapshot)
    requires forall k :: 0 <= k < |lines| ==> p.started(lines[k]).None? && p.rate(lines[k]).None?
    ensures ParseLines(p, lines, Some(prev))
      == Snapshot(prev.appid, if prev.status == Downloading then prev.rate else None, prev.status)
  {
    WindowFacts(p, lines);
  }

  /** `parse("", previous)` returns a downloading previous snapshot unchanged. */
  lemma EmptyTextKeepsDownloading(p: Patterns, prev: Snapshot)
    requires prev.status == Downloading
    ensures ParseLines(p, SplitLines(""), Some(prev)) == prev
  {
    QuietTailCarriesOver(p, [], prev);
  }

  /** The token test is a plain substring test: while "AppID 12" is active, a
      cancel line of "AppID 123" pauses it too. */
  lemma TokenMatchesLongerId(p: Patterns, line: string)
    requires Contains(line, "AppID 123") && p.canceled(line)
    ensures IsPause(p, Token(Some("12")), line)
  {
    assert "AppID " + "12" == "AppID 12";
    assert "AppID 12" + "3" == "AppID 123";
    ContainsPrefix(line, "AppID 12", "3");
  }

  /** A line the patterns read as the start of "123", naming "AppID 123" and
      matching the resume pattern (as "update started" does). */
  predicate StartOf123(p: Patterns, line: string) {
    p.started(line) == Some("123") && Contains(line, "AppID 123")
    && !p.suspended(line) && !p.canceled(line) && p.resumed(line) && p.rate(line).None?
  }

  /** A rate line "Current download rate: 10.0 Mbps" that names no title. */
  predicate RateLine10(p: Patterns, line: string) {
    p.started(line).None? && !Contains(line, "AppID 123")
    && p.rate(line) == Some(RateMatch("10.0", "Mbps")) && p.toFloat("10.0") == Some(10.0)
  }

  /** A lone "update started" line gives `downloading` without a rate. */
  lemma LoneStartLine(p: Patterns, l0: string)
    requires StartOf123(p, l0)
    ensures ParseLines(p, [l0], None) == Snapshot(Some("123"), None, Downloading)
  {
    assert "AppID " + "123" == "AppID 123";
    ActiveIdFromLastStart(p, [l0], None, 0);
    assert IsResume(p, Some("AppID 123"), l0);
    assert Token(ActiveId(p, [l0])) == Some("AppID 123");
    assert Scan(p, Some("AppID 123"), [l0], 0, 0) == NoSignals;
    assert ScanStep(p, Some("AppID 123"), NoSignals, 0, l0) == Signals(None, Some(0), None, None, None);
    assert Scan(p, Some("AppID 123"), [l0], 0, 1) == Signals(None, Some(0), None, None, None);
    assert WindowSignals(p, [l0]) == Signals(None, Some(0), None, None, None);
  }

  /** Start, then a 10.0 Mbps rate line, gives ("123", downloading, "10.0 Mbps"). */
  lemma StartThenRate(p: Patterns, l0: string, l1: string)
    requires StartOf123(p, l0) && RateLine10(p, l1)
    ensures ParseLines(p, [l0, l1], None) == Snapshot(Some("123"), Some("10.0 Mbps"), Downloading)
  {
    assert "AppID " + "123" == "AppID 123";
    assert "10.0" + " " + "Mbps" == "10.0 Mbps";
    ActiveIdFromLastStart(p, [l0, l1], None, 0);
    var t := Some("AppID 123");
    assert Scan(p, t, [l0, l1], 0, 1) == Signals(None, Some(0), None, None, None);
    assert Scan(p, t, [l0, l1], 0, 2) == Signals(None, Some(0), Some(1), Some(10.0), Some("10.0 Mbps"));
  }

  /** Start, rate, then a cancel line of the same title gives
      ("123", paused, "0 Mbps"). */
  lemma StartRateCancel(p: Patterns, l0: string, l1: string, l2: string)
    requires StartOf123(p, l0) && RateLine10(p, l1)
    requires p.started(l2).None? && Contains(l2, "AppID 123") && p.canceled(l2) && p.rate(l2).None?
    ensures ParseLines(p, [l0, l1, l2], None) == Snapshot(Some("123"), Some("0 Mbps"), Paused)
  {
    assert "AppID " + "123" == "AppID 123";
    assert "10.0" + " " + "Mbps" == "10.0 Mbps";
    ActiveIdFromLastStart(p, [l0, l1, l2], None, 0);
    var t := Some("AppID 123");
    assert Scan(p, t, [l0, l1, l2], 0, 1) == Signals(None, Some(0), None, None, None);
    assert Scan(p, t, [l0, l1, l2], 0, 2) == Signals(None, Some(0), Some(1), Some(10.0), Some("10.0 Mbps"));
    assert Scan(p, t, [l0, l1, l2], 0, 3) == Signals(Some(2), Some(0), Some(1), Some(10.0), Some("10.0 Mbps"));
  }
}
