/** The pure parts of Steam root and library discovery (steam.py): the
    registry-path split, the library list with its case-insensitive
    de-duplication, and the scoring and choice of a Steam root candidate.
    Paths are strings; the file system is the set of paths that exist. */
module Library {
  import opened Common
  import opened Text

  /** `split_registry_path`: the hive name before the first backslash, stripped
      (`None` when blank), and the rest after it ("" when there is no
      backslash); the empty string gives `(None, None)`. */
  function SplitRegistryPath(value: string): (r: (Option<string>, Option<string>))
    ensures r.1.None? <==> value == []
    ensures r.0.Some? ==> r.0.value != []
  {
    if value == [] then (None, None)
    else
      var i := IndexOf(value, '\\');
      var head := Strip(value[..i]);
      (if head != [] then Some(head) else None, Some(if i < |value| then value[i + 1..] else ""))
  }

  /** The first backslash of `root + "\" + rest` is the one after `root`. */
  lemma IndexOfAfter(root: string, rest: string)
    requires forall k :: 0 <= k < |root| ==> root[k] != '\\'
    ensures IndexOf(root + "\\" + rest, '\\') == |root|
  {
    var s := root + "\\" + rest;
    var i := IndexOf(s, '\\');
    assert s[|root|] == '\\';
  }

  /** A stripped, non-empty hive name joined to a sub-path splits back into the two. */
  lemma SplitRegistryPathJoined(root: string, subkey: string)
    requires root != [] && Strip(root) == root
    requires forall k :: 0 <= k < |root| ==> root[k] != '\\'
    ensures SplitRegistryPath(root + "\\" + subkey) == (Some(root), Some(subkey))
  {
    var s := root + "\\" + subkey;
    IndexOfAfter(root, subkey);
    assert s[..|root|] == root;
    assert s[|root| + 1..] == subkey;
  }

  /** A value without a backslash is all hive name, with the empty sub-path. */
  lemma SplitRegistryPathNoBackslash(value: string)
    requires value != []
    requires forall k :: 0 <= k < |value| ==> value[k] != '\\'
    ensures SplitRegistryPath(value) == (if Strip(value) != [] then Some(Strip(value)) else None, Some(""))
  {
    assert value[..|value|] == value;
  }

  /** `raw.replace("\\\\", "\\")`: each pair of backslashes, read left to
      right without overlap, becomes one backslash. */
  function Unescape(raw: string): (p: string)
    ensures |p| <= |raw|
    decreases |raw|
  {
    if |raw| >= 2 && raw[0] == '\\' && raw[1] == '\\' then "\\" + Unescape(raw[2..])
    else if raw == [] then []
    else [raw[0]] + Unescape(raw[1..])
  }

  /** How libraryfolders.vdf writes a path: every backslash doubled. */
  function Escape(p: string): (raw: string)
    ensures |raw| >= |p|
  {
    if p == [] then []
    else (if p[0] == '\\' then "\\\\" else [p[0]]) + Escape(p[1..])
  }

  /** Unescaping an escaped path gives the path back. */
  lemma {:induction false} UnescapeEscape(p: string)
    ensures Unescape(Escape(p)) == p
  {
    if p != [] {
      var e := Escape(p[1..]);
      UnescapeEscape(p[1..]);
      if p[0] == '\\' {
        assert Escape(p) == "\\\\" + e;
        assert (("\\\\" + e)[2..]) == e;
      } else {
        assert Escape(p) == [p[0]] + e;
        assert ([p[0]] + e)[1..] == e;
      }
    }
  }

  /** The unescaped path of every captured `"path"` value. */
  function UnescapeAll(raws: seq<string>): (ps: seq<string>)
    ensures |ps| == |raws| && forall i :: 0 <= i < |raws| ==> ps[i] == Unescape(raws[i])
  {
    seq(|raws|, i requires 0 <= i < |raws| => Unescape(raws[i]))
  }

  /** The de-duplication key of a path: `str(path).lower()`. */
  function Key(p: string): string {
    Lower(p)
  }

  /** The keys of all paths in `ps`. */
  function Keys(ps: seq<string>): set<string> {
    set i | 0 <= i < |ps| :: Key(ps[i])
  }

  /** The paths of `ps` whose key did not occur earlier, in order. */
  function Dedup(ps: seq<string>): seq<string> {
    if ps == [] then []
    else
      var init := ps[..|ps| - 1];
      if Key(ps[|ps| - 1]) in Keys(init) then Dedup(init) else Dedup(init) + [ps[|ps| - 1]]
  }

  lemma KeysAppend(ps: seq<string>, x: string)
    ensures Keys(ps + [x]) == Keys(ps) + {Key(x)}
  {
    var qs := ps + [x];
    forall k | k in Keys(qs) ensures k in Keys(ps) + {Key(x)} {
      var i :| 0 <= i < |qs| && Key(qs[i]) == k;
      if i < |ps| {
        assert qs[i] == ps[i];
      }
    }
    forall k | k in Keys(ps) + {Key(x)} ensures k in Keys(qs) {
      if k == Key(x) {
        assert Key(qs[|ps|]) == k;
      } else {
        var i :| 0 <= i < |ps| && Key(ps[i]) == k;
        assert qs[i] == ps[i];
      }
    }
  }

  /** The de-duplicated list covers every key of the original list. */
  lemma {:induction false} DedupSameKeys(ps: seq<string>)
    ensures Keys(Dedup(ps)) == Keys(ps)
  {
    if ps != [] {
      var init := ps[..|ps| - 1];
      var x := ps[|ps| - 1];
      assert ps == init + [x];
      DedupSameKeys(init);
      KeysAppend(init, x);
      if Key(x) !in Keys(init) {
        KeysAppend(Dedup(init), x);
      }
    }
  }

  /** No two paths of the de-duplicated list share a key. */
  lemma {:induction false} DedupDistinctKeys(ps: seq<string>)
    ensures var d := Dedup(ps); forall i, j :: 0 <= i < j < |d| ==> Key(d[i]) != Key(d[j])
  {
    if ps != [] {
      var init := ps[..|ps| - 1];
      var x := ps[|ps| - 1];
      DedupDistinctKeys(init);
      if Key(x) !in Keys(init) {
        DedupSameKeys(init);
        var d0 := Dedup(init);
        forall i | 0 <= i < |d0| ensures Key(d0[i]) != Key(x) {
          assert Key(d0[i]) in Keys(d0);
        }
        assert forall i :: 0 <= i < |d0| ==> (d0 + [x])[i] == d0[i];
        assert Dedup(ps) == d0 + [x];
      } else {
        assert Dedup(ps) == Dedup(init);
      }
    }
  }

  /** Position `i` holds the first path of `ps` with its key. */
  predicate FirstOfKey(ps: seq<string>, i: nat) {
    i < |ps| && Key(ps[i]) !in Keys(ps[..i])
  }

  /** Every path kept is the first one seen with its key. */
  lemma {:induction false} DedupKeepsFirstSeen(ps: seq<string>)
    ensures forall x :: x in Dedup(ps) ==> exists i: nat :: FirstOfKey(ps, i) && ps[i] == x
  {
    if ps != [] {
      var init := ps[..|ps| - 1];
      var x := ps[|ps| - 1];
      DedupKeepsFirstSeen(init);
      var d0 := Dedup(init);
      forall y | y in d0 ensures exists i: nat :: FirstOfKey(ps, i) && ps[i] == y {
        var i: nat :| FirstOfKey(init, i) && init[i] == y;
        assert ps[..i] == init[..i];
        assert FirstOfKey(ps, i) && ps[i] == y;
      }
      if Key(x) !in Keys(init) {
        assert FirstOfKey(ps, |ps| - 1);
      }
    }
  }

  /** Every first-seen path is kept. */
  lemma {:induction false} DedupKeepsEveryFirst(ps: seq<string>, i: nat)
    requires FirstOfKey(ps, i)
    ensures ps[i] in Dedup(ps)
  {
    var init := ps[..|ps| - 1];
    if i < |ps| - 1 {
      assert init[..i] == ps[..i];
      DedupKeepsEveryFirst(init, i);
    } else {
      assert init == ps[..i];
    }
  }

  /** The first path always survives, at the head: the Steam root leads the library list. */
  lemma {:induction false} DedupKeepsHead(ps: seq<string>)
    requires ps != []
    ensures Dedup(ps) != [] && Dedup(ps)[0] == ps[0]
  {
    if |ps| > 1 {
      DedupKeepsHead(ps[..|ps| - 1]);
    } else {
      assert Keys(ps[..0]) == {};
    }
  }

  /** `SteamLibrary.list_paths` after the `"path"` values have been captured:
      the Steam root, then every captured path unescaped, then the
      case-insensitive de-duplication. */
  method ListPaths(steamRoot: string, raws: seq<string>) returns (unique: seq<string>)
    ensures unique == Dedup([steamRoot] + UnescapeAll(raws))
  {
    var libraries := [steamRoot];
    var j := 0;
    while j < |raws|
      invariant 0 <= j <= |raws|
      invariant libraries == [steamRoot] + UnescapeAll(raws[..j])
    {
      assert UnescapeAll(raws[..j + 1]) == UnescapeAll(raws[..j]) + [Unescape(raws[j])];
      libraries := libraries + [Unescape(raws[j])];
      j := j + 1;
    }
    assert raws[..|raws|] == raws;
    unique := [];
    var seen: set<string> := {};
    var i := 0;
    while i < |libraries|
      invariant 0 <= i <= |libraries|
      invariant unique == Dedup(libraries[..i]) && seen == Keys(libraries[..i])
    {
      var norm := Lower(libraries[i]);
      assert libraries[..i + 1] == libraries[..i] + [libraries[i]];
      KeysAppend(libraries[..i], libraries[i]);
      if norm !in seen {
        seen := seen + {norm};
        unique := unique + [libraries[i]];
      }
      i := i + 1;
    }
    assert libraries[..|libraries|] == libraries;
  }

  /** `path / name`. */
  function Child(path: string, name: string): string {
    path + "/" + name
  }

  /** `SteamLocator._score_candidate`: -1 for a path that does not exist,
      otherwise 3 for the content log, 2 for steamapps, 1 for
      config/config.vdf and 1 for logs. */
  function Score(existing: set<string>, logRel: string, path: string): (s: int)
    ensures -1 <= s <= 7
    ensures s == -1 <==> path !in existing
  {
    if path !in existing then -1
    else
      (if Child(path, logRel) in existing then 3 else 0)
      + (if Child(path, "steamapps") in existing then 2 else 0)
      + (if Child(Child(path, "config"), "config.vdf") in existing then 1 else 0)
      + (if Child(path, "logs") in existing then 1 else 0)
  }

  /** A root with the content log and steamapps outscores one with neither. */
  lemma LogAndSteamappsOutscore(existing: set<string>, logRel: string, p: string, q: string)
    requires p in existing && Child(p, logRel) in existing && Child(p, "steamapps") in existing
    requires Child(q, logRel) !in existing && Child(q, "steamapps") !in existing
    ensures Score(existing, logRel, p) >= 5 && Score(existing, logRel, q) <= 2
    ensures Score(existing, logRel, p) > Score(existing, logRel, q)
  {
  }

  /** The best candidate so far and its score. */
  datatype Best = Best(path: Option<string>, score: int)

  /** One step of the selection loop: a strictly higher score replaces the best. */
  function Consider(b: Best, path: string, score: int): Best {
    if score > b.score then Best(Some(path), score) else b
  }

  /** The selection loop run over `ps`, from no best and score -1. */
  function BestOf(existing: set<string>, logRel: string, ps: seq<string>): Best {
    if ps == [] then Best(None, -1)
    else Consider(BestOf(existing, logRel, ps[..|ps| - 1]), ps[|ps| - 1], Score(existing, logRel, ps[|ps| - 1]))
  }

  /** `SteamLocator._pick_best_candidate`: the best of the distinct
      candidates, when its score is at least 1. */
  function PickBest(existing: set<string>, logRel: string, candidates: seq<string>): Option<string> {
    var b := BestOf(existing, logRel, Dedup(candidates));
    if b.path.Some? && b.score >= 1 then b.path else None
  }

  /** `_pick_best_candidate` as the source runs it: one loop with the seen
      keys, the best path and the best score. */
  method PickBestCandidate(existing: set<string>, logRel: string, candidates: seq<string>) returns (result: Option<string>)
    ensures result == PickBest(existing, logRel, candidates)
  {
    var bestPath: Option<string> := None;
    var bestScore := -1;
    var seen: set<string> := {};
    var i := 0;
    while i < |candidates|
      invariant 0 <= i <= |candidates|
      invariant seen == Keys(candidates[..i])
      invariant Best(bestPath, bestScore) == BestOf(existing, logRel, Dedup(candidates[..i]))
    {
      var path := candidates[i];
      var key := Lower(path);
      assert candidates[..i + 1] == candidates[..i] + [path];
      KeysAppend(candidates[..i], path);
      if key !in seen {
        seen := seen + {key};
        var d := Dedup(candidates[..i]);
        assert (d + [path])[..|d|] == d;
        var score := Score(existing, logRel, path);
        if score > bestScore {
          bestScore := score;
          bestPath := Some(path);
        }
      }
      i := i + 1;
    }
    assert candidates[..|candidates|] == candidates;
    if bestPath.Some? && bestScore >= 1 {
      result := bestPath;
    } else {
      result := None;
    }
  }

  /** The best score bounds every score from above and is never below -1. */
  lemma {:induction false} BestOfIsMax(existing: set<string>, logRel: string, ps: seq<string>)
    ensures var b := BestOf(existing, logRel, ps);
      b.score >= -1 && forall k :: 0 <= k < |ps| ==> Score(existing, logRel, ps[k]) <= b.score
  {
    if ps != [] {
      var init := ps[..|ps| - 1];
      BestOfIsMax(existing, logRel, init);
      forall k | 0 <= k < |init| ensures ps[k] == init[k] {
      }
    }
  }

  /** The best path is the first path with the best score; with no best path
      the score stayed at -1. */
  lemma {:induction false} BestOfIsFirstMax(existing: set<string>, logRel: string, ps: seq<string>)
    ensures var b := BestOf(existing, logRel, ps);
      (b.path.None? ==> b.score == -1)
      && (b.path.Some? ==>
            exists k :: (0 <= k < |ps| && ps[k] == b.path.value
              && Score(existing, logRel, ps[k]) == b.score
              && forall j :: 0 <= j < k ==> Score(existing, logRel, ps[j]) < b.score))
  {
    if ps != [] {
      var init := ps[..|ps| - 1];
      var x := ps[|ps| - 1];
      var b0 := BestOf(existing, logRel, init);
      BestOfIsFirstMax(existing, logRel, init);
      if Score(existing, logRel, x) > b0.score {
        BestOfIsMax(existing, logRel, init);
        forall j | 0 <= j < |ps| - 1 ensures Score(existing, logRel, ps[j]) < Score(existing, logRel, x) {
          assert ps[j] == init[j];
        }
      } else if b0.path.Some? {
        var k :| 0 <= k < |init| && init[k] == b0.path.value
          && Score(existing, logRel, init[k]) == b0.score
          && forall j :: 0 <= j < k ==> Score(existing, logRel, init[j]) < b0.score;
        assert ps[k] == init[k];
        forall j | 0 <= j < k ensures Score(existing, logRel, ps[j]) < b0.score {
          assert ps[j] == init[j];
        }
      }
    }
  }

  /** A chosen root is a distinct candidate that exists, scores at least 1,
      scores no less than any other candidate, and scores strictly more than
      every candidate before it: the first of the best wins. */
  lemma PickBestIsFirstBest(existing: set<string>, logRel: string, candidates: seq<string>)
    requires PickBest(existing, logRel, candidates).Some?
    ensures var p := PickBest(existing, logRel, candidates).value; var d := Dedup(candidates);
      p in existing && Score(existing, logRel, p) >= 1
      && (forall q :: q in d ==> Score(existing, logRel, q) <= Score(existing, logRel, p))
      && exists k :: (0 <= k < |d| && d[k] == p
           && forall j :: 0 <= j < k ==> Score(existing, logRel, d[j]) < Score(existing, logRel, p))
  {
    var d := Dedup(candidates);
    BestOfIsMax(existing, logRel, d);
    BestOfIsFirstMax(existing, logRel, d);
  }

  /** No root is chosen exactly when no distinct candidate scores at least 1. */
  lemma PickBestNone(existing: set<string>, logRel: string, candidates: seq<string>)
    ensures var d := Dedup(candidates);
      PickBest(existing, logRel, candidates).None? <==> forall q :: q in d ==> Score(existing, logRel, q) < 1
  {
    var d := Dedup(candidates);
    BestOfIsMax(existing, logRel, d);
    BestOfIsFirstMax(existing, logRel, d);
  }

  /** Between two distinct roots, one with the content log and steamapps is
      chosen over one with neither, whichever comes first. */
  lemma PickBestPrefersLogAndSteamapps(existing: set<string>, logRel: string, p: string, q: string)
    requires Key(p) != Key(q)
    requires p in existing && Child(p, logRel) in existing && Child(p, "steamapps") in existing
    requires Child(q, logRel) !in existing && Child(q, "steamapps") !in existing
    ensures PickBest(existing, logRel, [p, q]) == Some(p)
    ensures PickBest(existing, logRel, [q, p]) == Some(p)
  {
    LogAndSteamappsOutscore(existing, logRel, p, q);
    assert [p, q][..1] == [p] && [q, p][..1] == [q];
    assert [p][..0] == [] && [q][..0] == [];
    assert Keys([p]) == {Key(p)} by { KeysAppend([], p); }
    assert Keys([q]) == {Key(q)} by { KeysAppend([], q); }
    assert Dedup([p]) == [p] && Dedup([q]) == [q];
    assert Dedup([p, q]) == [p, q];
    assert Dedup([q, p]) == [q, p];
    assert BestOf(existing, logRel, [p]) == Best(Some(p), Score(existing, logRel, p));
    assert BestOf(existing, logRel, [p, q]) == Best(Some(p), Score(existing, logRel, p));
    assert BestOf(existing, logRel, [q, p]) == Best(Some(p), Score(existing, logRel, p));
  }
}
