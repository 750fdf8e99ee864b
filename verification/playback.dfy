/** The speech session: the flags the foreground script and the speech
    thread share through the session state, the temporary audio files of the
    online engine, and the speech loops that read and write them.

    The two sides run concurrently in the program. Here the speech side runs
    as one sequential method and the foreground appears in it through the
    stop oracle: `stops[r]` is true when the foreground ran `stop_speaking`
    just before the speech side's r-th read of the stop flag (reads past the
    end of `stops` see no new request). The audio engines, the language
    detector and the temporary-file factory are abstract; a save failure of
    the online engine is the parameter `saveFailsAt`. */
module Playback {
  import opened Wrappers
  import opened Text
  import opened Assistant
  import opened Speech

  /** A temporary file, as an abstract handle. */
  type Path = nat

  /** The contents of a temporary file: empty as created, or the audio of a
      text in a language once saved. */
  datatype Clip = Empty | Audio(text: string, lang: string)

  function Min(a: nat, b: nat): nat {
    if a <= b then a else b
  }

  // ---------------------------------------------------------------------
  // The stop oracle

  /** The first read, from r on, that finds a stop request. */
  function FirstStop(stops: seq<bool>, r: nat): (t: Option<nat>)
    ensures t.Some? ==> r <= t.value < |stops| && stops[t.value]
    ensures forall u :: r <= u < |stops| && (t.None? || u < t.value) ==> !stops[u]
    decreases |stops| - r
  {
    if r >= |stops| then None
    else if stops[r] then Some(r)
    else FirstStop(stops, r + 1)
  }

  /** How many sentences the offline engine says: one read of the flag
      before each sentence, so it says sentences up to the first read that
      finds a request, or all n. */
  function SpokenCount(n: nat, stops: seq<bool>): (m: nat)
    ensures m <= n
    ensures NoStopBefore(stops, m)
    ensures m == n || (m < |stops| && stops[m])
  {
    match FirstStop(stops, 0)
    case None => n
    case Some(t) => Min(n, t)
  }

  /** The outcome of the online engine's loop over n segments: how many
      segments were saved, how many temporary files were created, whether a
      save failed, and whether a stop request ended the loop. */
  datatype GttsOutcome = GttsOutcome(saved: nat, created: nat, failed: bool, stopped: bool)

  /** The flag is read before and after each segment (reads 2k and 2k + 1
      for segment k), so segment k is attempted when no request came before
      read 2k; a save failure at an attempted segment ends the loop. */
  function GttsRun(n: nat, stops: seq<bool>, saveFailsAt: Option<nat>): (o: GttsOutcome)
    ensures o.saved <= o.created <= n
    ensures o.created == if o.failed then o.saved + 1 else o.saved
    ensures o.stopped ==> !o.failed
  {
    var attempted := match FirstStop(stops, 0) case None => n case Some(t) => Min(n, SegmentsBefore(t));
    if saveFailsAt.Some? && saveFailsAt.value < attempted then
      GttsOutcome(saveFailsAt.value, saveFailsAt.value + 1, true, false)
    else
      GttsOutcome(attempted, attempted, false, FirstStop(stops, 0).Some? && FirstStop(stops, 0).value < 2 * n)
  }

  /** The number of segments whose first read comes before read t. */
  function SegmentsBefore(t: nat): (c: nat)
    ensures t <= 2 * c <= t + 1
  {
    if t < 2 then t else SegmentsBefore(t - 2) + 1
  }

  /** No read before read r found a request. */
  ghost predicate NoStopBefore(stops: seq<bool>, r: nat) {
    forall u :: 0 <= u < r && u < |stops| ==> !stops[u]
  }

  lemma NoStopNext(stops: seq<bool>, r: nat)
    requires NoStopBefore(stops, r) && (r < |stops| ==> !stops[r])
    ensures NoStopBefore(stops, r + 1)
  {
  }

  /** A stop request at read t keeps every later segment from being saved:
      a saved segment k had its first read 2k before t. */
  lemma GttsStopBound(n: nat, stops: seq<bool>, saveFailsAt: Option<nat>, t: nat)
    requires t < |stops| && stops[t]
    ensures forall k :: 0 <= k < GttsRun(n, stops, saveFailsAt).saved ==> 2 * k < t
  {
    var f := FirstStop(stops, 0);
    assert f.Some? && f.value <= t;
  }

  /** A request before the first read means nothing is synthesized and no
      file is created. */
  lemma GttsImmediateStop(n: nat, stops: seq<bool>, saveFailsAt: Option<nat>)
    requires |stops| > 0 && stops[0]
    ensures GttsRun(n, stops, saveFailsAt).saved == 0 && GttsRun(n, stops, saveFailsAt).created == 0
    ensures n > 0 ==> GttsRun(n, stops, saveFailsAt).stopped
  {
    assert FirstStop(stops, 0) == Some(0);
  }

  /** More stop requests never save more segments. */
  lemma GttsMonotone(n: nat, s1: seq<bool>, s2: seq<bool>, saveFailsAt: Option<nat>)
    requires forall u :: 0 <= u < |s1| && s1[u] ==> u < |s2| && s2[u]
    ensures GttsRun(n, s2, saveFailsAt).saved <= GttsRun(n, s1, saveFailsAt).saved
  {
    var f1, f2 := FirstStop(s1, 0), FirstStop(s2, 0);
    if f1.Some? {
      assert s2[f1.value];
      assert f2.Some? && f2.value <= f1.value;
    }
  }

  /** A stop request at read t keeps the offline engine from saying sentence
      t and any later one. */
  lemma SpokenStopBound(n: nat, stops: seq<bool>, t: nat)
    requires t < |stops| && stops[t]
    ensures SpokenCount(n, stops) <= t
  {
    var f := FirstStop(stops, 0);
    assert f.Some? && f.value <= t;
  }

  /** The loop saved k segments and then read t, the first read to find a
      request, which came before segment k (t == 2k) or after segment
      k - 1 (t == 2k - 1). */
  lemma GttsStoppedAt(n: nat, stops: seq<bool>, saveFailsAt: Option<nat>, k: nat, t: nat)
    requires (t == 2 * k || t + 1 == 2 * k) && t < 2 * n
    requires t < |stops| && stops[t] && NoStopBefore(stops, t)
    requires saveFailsAt.Some? ==> saveFailsAt.value >= k
    ensures GttsRun(n, stops, saveFailsAt) == GttsOutcome(k, k, false, true)
  {
    assert FirstStop(stops, 0) == Some(t);
  }

  /** Without requests during the 2n reads and without a failure among the
      n segments, every segment is saved. */
  lemma GttsCompleted(n: nat, stops: seq<bool>, saveFailsAt: Option<nat>)
    requires NoStopBefore(stops, 2 * n)
    requires saveFailsAt.Some? ==> saveFailsAt.value >= n
    ensures GttsRun(n, stops, saveFailsAt) == GttsOutcome(n, n, false, false)
  {
    var f := FirstStop(stops, 0);
    assert f.Some? ==> f.value >= 2 * n;
  }

  /** A save of segment k that raises, with no request up to read 2k, leaves
      k saved segments and k + 1 created files. */
  lemma GttsFailedAt(n: nat, stops: seq<bool>, k: nat)
    requires k < n && NoStopBefore(stops, 2 * k + 1)
    ensures GttsRun(n, stops, Some(k)) == GttsOutcome(k, k + 1, true, false)
  {
    var f := FirstStop(stops, 0);
    assert f.Some? ==> f.value > 2 * k;
  }

  /** The first request at read i < n stops the offline engine before
      sentence i. */
  lemma SpokenStoppedAt(n: nat, stops: seq<bool>, i: nat)
    requires i < n && i < |stops| && stops[i] && NoStopBefore(stops, i)
    ensures SpokenCount(n, stops) == i
  {
    assert FirstStop(stops, 0) == Some(i);
  }

  /** Without requests during the n reads every sentence is said. */
  lemma SpokenCompleted(n: nat, stops: seq<bool>)
    requires NoStopBefore(stops, n)
    ensures SpokenCount(n, stops) == n
  {
    var f := FirstStop(stops, 0);
    assert f.Some? ==> f.value >= n;
  }

  // ---------------------------------------------------------------------
  // Temporary files

  /** The audio of each segment in a language. */
  function AudioOf(segs: seq<string>, lang: string): seq<Clip>
  {
    seq(|segs|, k requires 0 <= k < |segs| => Audio(segs[k], lang))
  }

  lemma AudioOfNext(segs: seq<string>, k: nat, lang: string)
    requires k < |segs|
    ensures AudioOf(segs[..k + 1], lang) == AudioOf(segs[..k], lang) + [Audio(segs[k], lang)]
  {
  }

  /** The files the online engine creates from `base` on: `created` of them,
      the first `saved` holding audio of their segments and the rest empty. */
  function NewFiles(base: Path, segs: seq<string>, lang: string, saved: nat, created: nat): (m: map<Path, Clip>)
    requires saved <= created && saved <= |segs|
    ensures forall p :: p in m <==> base <= p < base + created
  {
    map p: Path | base <= p < base + created && InRange(base, created, p) :: if p - base < saved then Audio(segs[p - base], lang) else Empty
  }

  predicate InRange(base: Path, k: nat, p: Path) {
    base <= p < base + k
  }

  /** The paths base, base + 1, ..., base + k - 1. */
  function Range(base: Path, k: nat): (ps: seq<Path>)
    ensures |ps| == k && forall i :: 0 <= i < k ==> ps[i] == base + i
  {
    seq(k, i requires 0 <= i < k => base + i)
  }

  lemma RangeNext(base: Path, k: nat)
    ensures Range(base, k) + [base + k] == Range(base, k + 1)
  {
  }

  /** m without the listed paths. */
  function Without(m: map<Path, Clip>, ps: seq<Path>): (r: map<Path, Clip>)
    ensures forall p :: p in r <==> p in m && p !in ps
    ensures forall p :: p in r ==> r[p] == m[p]
  {
    map p | p in m && p !in ps :: m[p]
  }

  /** Creating the next temporary file adds an empty one to the created files. */
  lemma NewFilesCreate(before: map<Path, Clip>, base: Path, segs: seq<string>, lang: string, k: nat)
    requires k <= |segs|
    ensures (before + NewFiles(base, segs, lang, k, k))[base + k := Empty] == before + NewFiles(base, segs, lang, k, k + 1)
  {
  }

  /** Saving segment k into the next file extends the saved files by one. */
  lemma NewFilesSave(before: map<Path, Clip>, base: Path, segs: seq<string>, lang: string, k: nat)
    requires k < |segs|
    ensures (before + NewFiles(base, segs, lang, k, k))[base + k := Audio(segs[k], lang)]
            == before + NewFiles(base, segs, lang, k + 1, k + 1)
  {
  }

  /** The created files lie below the next fresh path. */
  lemma NewFilesBelow(before: map<Path, Clip>, base: Path, segs: seq<string>, lang: string, saved: nat, created: nat)
    requires saved <= created && saved <= |segs| && forall p :: p in before ==> p < base
    ensures forall p :: p in before + NewFiles(base, segs, lang, saved, created) ==> p < base + created
  {
  }

  /** Deleting the created files restores the files there were before. */
  lemma CleanupRestores(before: map<Path, Clip>, base: Path, segs: seq<string>, lang: string, k: nat)
    requires k <= |segs| && forall p :: p in before ==> p < base
    ensures Without(before + NewFiles(base, segs, lang, k, k), Range(base, k)) == before
  {
    var created := NewFiles(base, segs, lang, k, k);
    forall p | p in created
      ensures p in Range(base, k)
    {
      assert Range(base, k)[p - base] == p;
    }
  }

  // ---------------------------------------------------------------------
  // The session

  /** The session fields that the speech loops keep or change, all but the
      speaking flag. */
  datatype Snapshot = Snapshot(language: string, stopSpeech: bool, files: map<Path, Clip>, nextPath: Path,
                               spoken: seq<string>, synthesized: seq<Clip>, audioFile: Option<Path>, playAudio: bool)

  /** The fields after the segment loop and cleanup of `speak_with_gtts` ran
      over segs in language lang from the fields s0. */
  function AfterGtts(s0: Snapshot, segs: seq<string>, lang: string, stops: seq<bool>, saveFailsAt: Option<nat>): Snapshot
  {
    var o := GttsRun(|segs|, stops, saveFailsAt);
    Snapshot(s0.language, o.stopped,
             if o.failed then s0.files + NewFiles(s0.nextPath, segs, lang, o.saved, o.created) else s0.files,
             s0.nextPath + o.created, s0.spoken, s0.synthesized + AudioOf(segs[..o.saved], lang),
             if o.saved > 0 then Some(s0.nextPath + o.saved - 1) else s0.audioFile,
             o.saved > 0 || s0.playAudio)
  }

  /** The stop flag the online engine starts from does not matter: it
      clears it first. */
  lemma AfterGttsIgnoresStop(s0: Snapshot, b: bool, segs: seq<string>, lang: string, stops: seq<bool>,
                             saveFailsAt: Option<nat>)
    ensures AfterGtts(s0.(stopSpeech := b), segs, lang, stops, saveFailsAt) == AfterGtts(s0, segs, lang, stops, saveFailsAt)
  {
  }

  /** What the online engine keeps and changes, field by field: the stop flag
      says whether a request ended the loop; the created files took the next
      paths; the saved segments' audio, in the language used, was appended
      to what was synthesized; the last saved file was handed to the player;
      and the files are back as they were unless a save raised, which leaves
      the created ones on disk. */
  lemma AfterGttsFields(s0: Snapshot, segs: seq<string>, lang: string, stops: seq<bool>, saveFailsAt: Option<nat>)
    ensures var s, o := AfterGtts(s0, segs, lang, stops, saveFailsAt), GttsRun(|segs|, stops, saveFailsAt);
            && s.language == s0.language && s.spoken == s0.spoken && s.stopSpeech == o.stopped
            && s.nextPath == s0.nextPath + o.created
            && |s.synthesized| == |s0.synthesized| + o.saved && s.synthesized[..|s0.synthesized|] == s0.synthesized
            && (forall k :: 0 <= k < o.saved ==> s.synthesized[|s0.synthesized| + k] == Audio(segs[k], lang))
            && (o.saved > 0 ==> s.audioFile == Some(s0.nextPath + o.saved - 1) && s.playAudio)
            && (o.saved == 0 ==> s.audioFile == s0.audioFile && s.playAudio == s0.playAudio)
            && (forall p :: p in s.files <==> p in s0.files || (o.failed && s0.nextPath <= p < s0.nextPath + o.created))
  {
    var s, o := AfterGtts(s0, segs, lang, stops, saveFailsAt), GttsRun(|segs|, stops, saveFailsAt);
    forall k | 0 <= k < o.saved
      ensures s.synthesized[|s0.synthesized| + k] == Audio(segs[k], lang)
    {
      assert AudioOf(segs[..o.saved], lang)[k] == Audio(segs[k], lang);
    }
  }

  class Session {
    /** Speech is in progress. */
    var speaking: bool
    /** A stop was requested. */
    var stopSpeech: bool
    /** The foreground should play audioFile. */
    var playAudio: bool
    var audioFile: Option<Path>
    /** "auto", "en" or "bn". */
    var language: string
    /** The temporary files on disk and what each holds. */
    var files: map<Path, Clip>
    /** Every path from here on is fresh. */
    var nextPath: Path
    /** The sentences the offline engine has said. */
    var spoken: seq<string>
    /** The audio the online engine has saved, segment by segment. */
    var synthesized: seq<Clip>

    ghost predicate Valid()
      reads this`files, this`nextPath
    {
      forall p :: p in files ==> p < nextPath
    }

    /** The session defaults set on the first run of the script. */
    constructor ()
      ensures Valid()
      ensures !speaking && !stopSpeech && !playAudio && audioFile.None? && language == "auto"
      ensures files == map[] && spoken == [] && synthesized == []
    {
      speaking := false;
      stopSpeech := false;
      playAudio := false;
      audioFile := None;
      language := "auto";
      files := map[];
      nextPath := 0;
      spoken := [];
      synthesized := [];
    }

    /** The sidebar's language radio button. */
    method SelectLanguage(option: string)
      modifies this`language
      ensures language == LanguageSetting(option)
    {
      language := LanguageSetting(option);
    }

    /** `stop_speaking`: only while speaking, request a stop and clear the
        speaking flag. */
    method StopSpeaking()
      modifies this`speaking, this`stopSpeech
      ensures old(speaking) ==> stopSpeech && !speaking
      ensures !old(speaking) ==> stopSpeech == old(stopSpeech) && !speaking
    {
      if speaking {
        stopSpeech := true;
        speaking := false;
      }
    }

    /** The audio-player block of the script: a pending file is shown unless
        a stop was requested, and the request to play is consumed. */
    method RenderAudioPlayer() returns (shown: Option<Path>)
      modifies this`playAudio, this`audioFile
      ensures old(playAudio) && old(audioFile).Some? ==>
                !playAudio && audioFile.None? && shown == (if stopSpeech then None else old(audioFile))
      ensures !(old(playAudio) && old(audioFile).Some?) ==>
                playAudio == old(playAudio) && audioFile == old(audioFile) && shown.None?
    {
      shown := None;
      if playAudio && audioFile.Some? {
        if !stopSpeech {
          shown := audioFile;
        }
        playAudio := false;
        audioFile := None;
      }
    }

    /** The speech side's r-th read of the stop flag, after the foreground
        ran `stop_speaking` if the oracle says so. */
    method ObserveStop(stops: seq<bool>, r: nat) returns (stop: bool)
      requires speaking && !stopSpeech
      modifies this`speaking, this`stopSpeech
      ensures stop == (r < |stops| && stops[r])
      ensures stopSpeech == stop && speaking == !stop
    {
      if r < |stops| && stops[r] {
        StopSpeaking();
      }
      stop := stopSpeech;
    }

    /** `NamedTemporaryFile(delete=False)`: a fresh, empty file. */
    method CreateTempFile() returns (p: Path)
      modifies this`files, this`nextPath
      ensures old(Valid()) ==> Valid() && p !in old(files)
      ensures p == old(nextPath)
      ensures nextPath == old(nextPath) + 1 && files == old(files)[p := Empty]
    {
      p := nextPath;
      nextPath := nextPath + 1;
      files := files[p := Empty];
    }

    /** The cleanup loop: every listed path that exists is deleted. */
    method RemoveFiles(paths: seq<Path>)
      modifies this`files
      ensures files == Without(old(files), paths)
    {
      for i := 0 to |paths|
        invariant files == Without(old(files), paths[..i])
      {
        if paths[i] in files {
          files := files - {paths[i]};
        }
        assert paths[..i + 1] == paths[..i] + [paths[i]];
      }
      assert paths[..|paths|] == paths;
    }

    /** The state after the segment loop saved k segments and created
        `created` temporary files, starting from the files `before`, the
        fresh path `base`, the synthesized segments `earlier` and the player
        state `audio0`, `play0`. */
    ghost predicate Saved(segments: seq<string>, l: string, k: nat, created: nat, before: map<Path, Clip>, base: Path,
                          earlier: seq<Clip>, audio0: Option<Path>, play0: bool)
      reads this`files, this`nextPath, this`synthesized, this`audioFile, this`playAudio
    {
      && k <= created && k <= |segments| && nextPath == base + created
      && files == before + NewFiles(base, segments, l, k, created)
      && synthesized == earlier + AudioOf(segments[..k], l)
      && (k > 0 ==> audioFile == Some(base + k - 1) && playAudio)
      && (k == 0 ==> audioFile == audio0 && playAudio == play0)
    }

    /** A pass of the segment loop that gets as far as the player: a fresh
        temporary file receives the audio of segment k and is handed to the
        player. */
    method SaveSegment(segments: seq<string>, k: nat, l: string, ghost before: map<Path, Clip>, ghost base: Path,
                       ghost earlier: seq<Clip>, ghost audio0: Option<Path>, ghost play0: bool)
      returns (p: Path)
      requires k < |segments| && Saved(segments, l, k, k, before, base, earlier, audio0, play0)
      modifies this`files, this`nextPath, this`synthesized, this`audioFile, this`playAudio
      ensures p == base + k && Saved(segments, l, k + 1, k + 1, before, base, earlier, audio0, play0)
    {
      p := CreateTempFile();
      files := files[p := Audio(segments[k], l)];
      NewFilesSave(before, base, segments, l, k);
      synthesized := synthesized + [Audio(segments[k], l)];
      AudioOfNext(segments, k, l);
      audioFile := Some(p);
      playAudio := true;
    }

    /** A pass of the segment loop whose save raises: the fresh temporary
        file stays empty. */
    method FailSegment(segments: seq<string>, k: nat, l: string, ghost before: map<Path, Clip>, ghost base: Path,
                       ghost earlier: seq<Clip>, ghost audio0: Option<Path>, ghost play0: bool)
      returns (p: Path)
      requires k < |segments| && Saved(segments, l, k, k, before, base, earlier, audio0, play0)
      modifies this`files, this`nextPath
      ensures p == base + k && Saved(segments, l, k, k + 1, before, base, earlier, audio0, play0)
    {
      p := CreateTempFile();
      NewFilesCreate(before, base, segments, l, k);
    }

    /** The session fields the speech loops keep or change. */
    function Snap(): Snapshot
      reads this`language, this`stopSpeech, this`files, this`nextPath, this`spoken, this`synthesized,
            this`audioFile, this`playAudio
    {
      Snapshot(language, stopSpeech, files, nextPath, spoken, synthesized, audioFile, playAudio)
    }

    /** One pass of the segment loop over segment k: read the flag, then
        save the segment and go on as `SaveAndRead` says. `next` says whether
        the loop goes on. */
    method SegmentPass(segments: seq<string>, k: nat, l: string, stops: seq<bool>, saveFailsAt: Option<nat>,
                       ghost before: map<Path, Clip>, ghost base: Path,
                       ghost earlier: seq<Clip>, ghost audio0: Option<Path>, ghost play0: bool)
      returns (next: bool, saved: nat, failed: bool, p: Option<Path>)
      requires k < |segments| && Saved(segments, l, k, k, before, base, earlier, audio0, play0)
      requires speaking && !stopSpeech && NoStopBefore(stops, 2 * k) && (saveFailsAt.Some? ==> saveFailsAt.value >= k)
      modifies this`files, this`nextPath, this`synthesized, this`audioFile, this`playAudio, this`speaking, this`stopSpeech
      ensures Saved(segments, l, saved, if failed then saved + 1 else saved, before, base, earlier, audio0, play0)
      ensures p.Some? <==> saved == k + 1 || failed
      ensures p.Some? ==> p.value == base + k
      ensures saved == k || saved == k + 1
      ensures next ==> saved == k + 1 && !failed && speaking && !stopSpeech && NoStopBefore(stops, 2 * saved)
                       && (saveFailsAt.Some? ==> saveFailsAt.value >= saved)
      ensures !next ==> GttsRun(|segments|, stops, saveFailsAt) == GttsOutcome(saved, if failed then saved + 1 else saved, failed, stopSpeech)
    {
      var stop := ObserveStop(stops, 2 * k);
      if stop {
        GttsStoppedAt(|segments|, stops, saveFailsAt, k, 2 * k);
        next, saved, failed, p := false, k, false, None;
        return;
      }
      NoStopNext(stops, 2 * k);
      var q;
      next, failed, q := SaveAndRead(segments, k, l, stops, saveFailsAt, before, base, earlier, audio0, play0);
      saved := if failed then k else k + 1;
      p := Some(q);
    }

    /** The rest of the pass over segment k once the first read found no
        request: the save either raises, or succeeds and is followed by the
        second read. */
    method SaveAndRead(segments: seq<string>, k: nat, l: string, stops: seq<bool>, saveFailsAt: Option<nat>,
                       ghost before: map<Path, Clip>, ghost base: Path,
                       ghost earlier: seq<Clip>, ghost audio0: Option<Path>, ghost play0: bool)
      returns (next: bool, failed: bool, p: Path)
      requires k < |segments| && Saved(segments, l, k, k, before, base, earlier, audio0, play0)
      requires speaking && !stopSpeech && NoStopBefore(stops, 2 * k + 1) && (saveFailsAt.Some? ==> saveFailsAt.value >= k)
      modifies this`files, this`nextPath, this`synthesized, this`audioFile, this`playAudio, this`speaking, this`stopSpeech
      ensures p == base + k
      ensures failed ==> !next && !stopSpeech && Saved(segments, l, k, k + 1, before, base, earlier, audio0, play0)
                         && GttsRun(|segments|, stops, saveFailsAt) == GttsOutcome(k, k + 1, true, false)
      ensures !failed ==> Saved(segments, l, k + 1, k + 1, before, base, earlier, audio0, play0)
      ensures !failed && !next ==> GttsRun(|segments|, stops, saveFailsAt) == GttsOutcome(k + 1, k + 1, false, stopSpeech)
      ensures next ==> !failed && speaking && !stopSpeech && NoStopBefore(stops, 2 * k + 2)
                       && (saveFailsAt.Some? ==> saveFailsAt.value >= k + 1)
    {
      if saveFailsAt == Some(k) {
        GttsFailedAt(|segments|, stops, k);
        p := FailSegment(segments, k, l, before, base, earlier, audio0, play0);
        next, failed := false, true;
        return;
      }
      p := SaveSegment(segments, k, l, before, base, earlier, audio0, play0);
      failed := false;
      var stop := ObserveStop(stops, 2 * k + 1);
      if stop {
        GttsStoppedAt(|segments|, stops, saveFailsAt, k + 1, 2 * k + 1);
        next := false;
        return;
      }
      NoStopNext(stops, 2 * k + 1);
      next := true;
    }

    /** The segment loop of `speak_with_gtts`, up to the first stop request
        or failed save: k segments were saved, and `failed` says whether the
        save of segment k raised. */
    method SaveSegments(segments: seq<string>, l: string, stops: seq<bool>, saveFailsAt: Option<nat>)
      returns (k: nat, failed: bool, tempFiles: seq<Path>)
      requires speaking && !stopSpeech
      modifies this`files, this`nextPath, this`synthesized, this`audioFile, this`playAudio, this`speaking, this`stopSpeech
      ensures GttsRun(|segments|, stops, saveFailsAt) == GttsOutcome(k, if failed then k + 1 else k, failed, stopSpeech)
      ensures !failed ==> tempFiles == Range(old(nextPath), k)
      ensures Saved(segments, l, k, if failed then k + 1 else k, old(files), old(nextPath), old(synthesized), old(audioFile), old(playAudio))
    {
      ghost var base := nextPath;
      k, failed, tempFiles := 0, false, [];
      while k < |segments|
        invariant Saved(segments, l, k, k, old(files), base, old(synthesized), old(audioFile), old(playAudio))
        invariant tempFiles == Range(base, k) && !failed
        invariant speaking && !stopSpeech
        invariant NoStopBefore(stops, 2 * k)
        invariant saveFailsAt.Some? ==> saveFailsAt.value >= k
      {
        var next, saved, p;
        next, saved, failed, p := SegmentPass(segments, k, l, stops, saveFailsAt, old(files), base, old(synthesized), old(audioFile), old(playAudio));
        if p.Some? {
          tempFiles := tempFiles + [p.value];
          RangeNext(base, k);
        }
        k := saved;
        if !next {
          return;
        }
      }
      GttsCompleted(|segments|, stops, saveFailsAt);
    }

    /** `speak_with_gtts(text, lang)`: segment the text, and for each segment
        until a stop request, save its audio to a fresh temporary file and
        hand the file to the player; then delete the files. A failed save
        skips the deletion. */
    method SpeakWithGtts(text: string, lang: Option<string>, d: Detection, stops: seq<bool>, saveFailsAt: Option<nat>)
      requires Valid()
      modifies this
      ensures Valid() && !speaking
      ensures Snap() == AfterGtts(old(Snap()), Segments(text), if lang.Some? then lang.value else EffectiveLanguage(old(language), d),
                                  stops, saveFailsAt)
    {
      speaking := true;
      stopSpeech := false;
      var l := if lang.Some? then lang.value else EffectiveLanguage(language, d);
      var segments := Segment(text);
      assert Snap() == old(Snap()).(stopSpeech := false);
      AfterGttsIgnoresStop(old(Snap()), false, segments, l, stops, saveFailsAt);
      SynthesizeSegments(segments, l, stops, saveFailsAt);
      speaking := false;
    }

    /** The segment loop of `speak_with_gtts` followed by its cleanup loop,
        which runs only when no save raised. */
    method SynthesizeSegments(segments: seq<string>, l: string, stops: seq<bool>, saveFailsAt: Option<nat>)
      requires Valid() && speaking && !stopSpeech
      modifies this`files, this`nextPath, this`synthesized, this`audioFile, this`playAudio, this`speaking, this`stopSpeech
      ensures Valid()
      ensures Snap() == AfterGtts(old(Snap()), segments, l, stops, saveFailsAt)
    {
      var k, failed, tempFiles := SaveSegments(segments, l, stops, saveFailsAt);
      NewFilesBelow(old(files), old(nextPath), segments, l, k, if failed then k + 1 else k);
      if !failed {
        CleanupRestores(old(files), old(nextPath), segments, l, k);
        RemoveFiles(tempFiles);
      }
    }

    /** The sentence loop of `speak_text`: read the flag, then say the
        sentence. */
    method SaySentences(sentences: seq<string>, stops: seq<bool>)
      requires speaking && !stopSpeech
      modifies this`spoken, this`speaking, this`stopSpeech
      ensures spoken == old(spoken) + sentences[..SpokenCount(|sentences|, stops)]
      ensures stopSpeech == (SpokenCount(|sentences|, stops) < |sentences|)
    {
      var i := 0;
      while i < |sentences|
        invariant i <= |sentences|
        invariant spoken == old(spoken) + sentences[..i]
        invariant speaking && !stopSpeech
        invariant NoStopBefore(stops, i)
      {
        var stop := ObserveStop(stops, i);
        if stop {
          SpokenStoppedAt(|sentences|, stops, i);
          return;
        }
        NoStopNext(stops, i);
        spoken := spoken + [sentences[i]];
        assert sentences[..i + 1] == sentences[..i] + [sentences[i]];
        i := i + 1;
      }
      SpokenCompleted(|sentences|, stops);
      assert sentences[..i] == sentences;
    }

    /** `speak_text(text)`: Bengali goes to the online engine; otherwise the
        offline engine says the sentences one by one until a stop request,
        and if it cannot start the online engine takes over. The detector is
        asked once by `speak_text` (d) and once more by the fallback (d2). */
    method SpeakText(text: string, d: Detection, d2: Detection, engineStarts: bool, stops: seq<bool>,
                     saveFailsAt: Option<nat>)
      requires Valid()
      modifies this
      ensures Valid() && !speaking
      ensures EffectiveLanguage(old(language), d) == "bn" ==> Snap() == AfterGtts(old(Snap()), Segments(text), "bn", stops, saveFailsAt)
      ensures EffectiveLanguage(old(language), d) != "bn" && !engineStarts ==>
                Snap() == AfterGtts(old(Snap()), Segments(text), EffectiveLanguage(old(language), d2), stops, saveFailsAt)
      ensures var lang := EffectiveLanguage(old(language), d);
              var sentences := SplitSentences(text);
              lang != "bn" && engineStarts ==>
                spoken == old(spoken) + sentences[..SpokenCount(|sentences|, stops)]
                && stopSpeech == (SpokenCount(|sentences|, stops) < |sentences|)
                && synthesized == old(synthesized) && files == old(files) && nextPath == old(nextPath)
                && audioFile == old(audioFile) && playAudio == old(playAudio) && language == old(language)
    {
      speaking := true;
      stopSpeech := false;
      var lang := EffectiveLanguage(language, d);
      assert Snap() == old(Snap()).(stopSpeech := false);
      if lang == "bn" {
        AfterGttsIgnoresStop(old(Snap()), false, Segments(text), "bn", stops, saveFailsAt);
        SpeakWithGtts(text, Some("bn"), d, stops, saveFailsAt);
        return;
      }
      if !engineStarts {
        AfterGttsIgnoresStop(old(Snap()), false, Segments(text), EffectiveLanguage(language, d2), stops, saveFailsAt);
        SpeakFallback(text, d2, stops, saveFailsAt);
        return;
      }
      SpeakSentences(text, stops);
    }

    /** The exception handler of `speak_text`: the online engine speaks the
        text in the language detected afresh, then the speaking flag is
        cleared. */
    method SpeakFallback(text: string, d2: Detection, stops: seq<bool>, saveFailsAt: Option<nat>)
      requires Valid()
      modifies this
      ensures Valid() && !speaking
      ensures Snap() == AfterGtts(old(Snap()), Segments(text), EffectiveLanguage(old(language), d2), stops, saveFailsAt)
    {
      SpeakWithGtts(text, None, d2, stops, saveFailsAt);
      ghost var s1 := Snap();
      speaking := false;
      assert Snap() == s1;
    }

    /** The offline path of `speak_text`: say the sentences of the text until
        a stop request, then clear the speaking flag. */
    method SpeakSentences(text: string, stops: seq<bool>)
      requires speaking && !stopSpeech
      modifies this`spoken, this`speaking, this`stopSpeech
      ensures var sentences := SplitSentences(text);
              && spoken == old(spoken) + sentences[..SpokenCount(|sentences|, stops)]
              && stopSpeech == (SpokenCount(|sentences|, stops) < |sentences|)
              && !speaking
    {
      SaySentences(SplitSentences(text), stops);
      speaking := false;
    }
  }
}
