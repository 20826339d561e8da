/**
 * The recorder (components/audio-recorder.tsx): the `mm:ss` clock, the
 * start / pause / resume / stop controls with their one-second timer, the
 * collection of recorded chunks, and the checks `handleSave` makes before
 * anything is encrypted or uploaded.
 */
module AudioRecorder {
  import opened Wrappers
  import opened Text
  import opened AudioCipher

  // ---------------------------------------------------------------------------
  // formatTime: `${mins.toString().padStart(2, "0")}:${secs.toString().padStart(2, "0")}`
  // ---------------------------------------------------------------------------

  function FormatTime(seconds: nat): string
  {
    PadStart(NatToString(seconds / 60, 10), 2, '0') + ":" + PadStart(NatToString(seconds % 60, 10), 2, '0')
  }

  /**
   * The clock shows at least two digits of minutes, a colon and exactly two
   * digits of seconds; reading it back gives minutes and seconds below 60
   * that add up to the elapsed time.
   */
  lemma FormatTimeReadsBack(seconds: nat)
    ensures var t := FormatTime(seconds);
      |t| >= 5 && t[|t| - 3] == ':' &&
      ParseClock(t) == Some((seconds / 60, seconds % 60))
    ensures seconds % 60 < 60 && (seconds / 60) * 60 + seconds % 60 == seconds
  {
    var m := PadStart(NatToString(seconds / 60, 10), 2, '0');
    var sec := PadStart(NatToString(seconds % 60, 10), 2, '0');
    TwoDigits(seconds % 60, 10);
    ReadPaddedNatToString(seconds / 60, 2, 10);
    ReadPaddedNatToString(seconds % 60, 2, 10);
    ParseClockJoin(m, sec);
    var t := m + ":" + sec;
    assert t == FormatTime(seconds);
    assert |m| >= 2 && |sec| == 2;
    assert t[|t| - 3] == ':';
  }

  /** Under an hour and forty minutes the clock is exactly five characters wide. */
  lemma FormatTimeWidth(seconds: nat)
    requires seconds < 100 * 60
    ensures |FormatTime(seconds)| == 5
  {
    TwoDigits(seconds / 60, 10);
    TwoDigits(seconds % 60, 10);
  }

  // ---------------------------------------------------------------------------
  // ondataavailable: only chunks with data are kept; onstop joins them
  // ---------------------------------------------------------------------------

  /** The chunks of a sequence of `dataavailable` events that the handler keeps: those of positive size. */
  function NonEmptyChunks(events: seq<seq<byte>>): (r: seq<seq<byte>>)
    ensures |r| <= |events|
    ensures forall i :: 0 <= i < |r| ==> |r[i]| > 0
    ensures forall c :: c in r <==> c in events && |c| > 0
  {
    if events == [] then []
    else if |events[0]| > 0 then [events[0]] + NonEmptyChunks(events[1..])
    else NonEmptyChunks(events[1..])
  }

  /** `new Blob(chunks)`: the chunks' bytes one after another. */
  function Flatten(chunks: seq<seq<byte>>): seq<byte>
  {
    if chunks == [] then [] else chunks[0] + Flatten(chunks[1..])
  }

  /** Dropping the empty chunks loses no audio: the recording is the same bytes. */
  lemma {:induction false} FlattenNonEmptyChunks(events: seq<seq<byte>>)
    ensures Flatten(NonEmptyChunks(events)) == Flatten(events)
  {
    if events != [] {
      FlattenNonEmptyChunks(events[1..]);
      if |events[0]| == 0 {
        assert events[0] + Flatten(events[1..]) == Flatten(events[1..]);
      } else {
        assert ([events[0]] + NonEmptyChunks(events[1..]))[1..] == NonEmptyChunks(events[1..]);
      }
    }
  }

  // ---------------------------------------------------------------------------
  // handleSave: the checks before submitting
  // ---------------------------------------------------------------------------

  /** The first check `handleSave` fails (each shows its own toast and returns), or that all pass. */
  datatype SaveCheck = NoRecording | TitleRequired | UnlockDateRequired | ReadyToSave

  /** The guards in the order the source tries them: the recording, then the title, then the unlock date. */
  function ValidateSave(audioBlob: Option<seq<byte>>, title: string, unlockDate: Option<int>): (r: SaveCheck)
    ensures r == NoRecording <==> audioBlob.None?
    ensures r == TitleRequired <==> audioBlob.Some? && title == ""
    ensures r == UnlockDateRequired <==> audioBlob.Some? && title != "" && unlockDate.None?
    ensures r == ReadyToSave <==> audioBlob.Some? && title != "" && unlockDate.Some?
  {
    if audioBlob.None? then NoRecording
    else if title == "" then TitleRequired
    else if unlockDate.None? then UnlockDateRequired
    else ReadyToSave
  }

  /** `disabled={!audioBlob || !title || !unlockDate || isSubmitting}` on the Save button. */
  predicate SaveButtonDisabled(audioBlob: Option<seq<byte>>, title: string, unlockDate: Option<int>, isSubmitting: bool)
  {
    audioBlob.None? || title == "" || unlockDate.None? || isSubmitting
  }

  /** The button and the handler agree: when no save is running, the button is enabled exactly when every check passes. */
  lemma SaveEnabledIffChecksPass(audioBlob: Option<seq<byte>>, title: string, unlockDate: Option<int>)
    ensures !SaveButtonDisabled(audioBlob, title, unlockDate, false) <==> ValidateSave(audioBlob, title, unlockDate) == ReadyToSave
  {
  }

  // ---------------------------------------------------------------------------
  // The recorder's state
  // ---------------------------------------------------------------------------

  /**
   * The state of `AudioRecorder` the controls act on. `timerSet` is
   * `timerRef.current !== null`; `liveIntervals` counts the intervals the
   * browser still runs, one call of `Tick` being one firing of one of them.
   */
  class Recorder {
    var hasMediaRecorder: bool
    var isRecording: bool
    var isPaused: bool
    var recordingTime: nat
    var timerSet: bool
    var liveIntervals: nat
    var audioChunks: seq<seq<byte>>
    var audioBlob: Option<seq<byte>>
    var title: string
    var unlockDate: Option<int>
    var isSubmitting: bool

    /**
     * What the controls keep: a recording has a recorder, the timer is set
     * exactly while recording and not paused, a set timer is running, and
     * no kept chunk is empty.
     */
    ghost predicate Valid()
      reads this
    {
      && (isRecording ==> hasMediaRecorder)
      && (timerSet <==> isRecording && !isPaused)
      && (timerSet ==> liveIntervals >= 1)
      && (forall i :: 0 <= i < |audioChunks| ==> |audioChunks[i]| > 0)
    }

    /** The only interval running is the one `timerRef` holds. */
    ghost predicate NoLeakedTimer()
      reads this
    {
      liveIntervals == if timerSet then 1 else 0
    }

    /** The initial `useState` / `useRef` values. */
    constructor()
      ensures Valid() && NoLeakedTimer()
      ensures !hasMediaRecorder && !isRecording && !isPaused && recordingTime == 0
      ensures !timerSet && liveIntervals == 0 && audioChunks == [] && audioBlob == None
      ensures title == "" && unlockDate == None && !isSubmitting
    {
      hasMediaRecorder, isRecording, isPaused, recordingTime := false, false, false, 0;
      timerSet, liveIntervals, audioChunks, audioBlob := false, 0, [], None;
      title, unlockDate, isSubmitting := "", None, false;
    }

    /**
     * `startRecording()`, `micGranted` being whether `getUserMedia` gave a
     * stream (if not, only a toast is shown). A new recorder and an empty
     * chunk buffer, recording and not paused, the time back to 0 and a new
     * interval in `timerRef` -- without clearing the one it may still hold.
     */
    method StartRecording(micGranted: bool)
      requires Valid()
      modifies this
      ensures Valid()
      ensures !micGranted ==> unchanged(this)
      ensures micGranted ==>
        && hasMediaRecorder && isRecording && !isPaused && recordingTime == 0
        && audioChunks == [] && timerSet && liveIntervals == old(liveIntervals) + 1
        && audioBlob == old(audioBlob) && title == old(title) && unlockDate == old(unlockDate)
        && isSubmitting == old(isSubmitting)
    {
      if !micGranted {
        return;
      }
      hasMediaRecorder := true;
      audioChunks := [];
      isRecording := true;
      isPaused := false;
      recordingTime := 0;
      timerSet := true;
      liveIntervals := liveIntervals + 1;
    }

    /** `startRecording()` as evidently intended: the interval `timerRef` still holds is cleared before a new one is set. */
    method StartRecordingClearingTimer(micGranted: bool)
      requires Valid() && NoLeakedTimer()
      modifies this
      ensures Valid() && NoLeakedTimer()
      ensures !micGranted ==> unchanged(this)
      ensures micGranted ==>
        && hasMediaRecorder && isRecording && !isPaused && recordingTime == 0
        && audioChunks == [] && timerSet && liveIntervals == 1
        && audioBlob == old(audioBlob) && title == old(title) && unlockDate == old(unlockDate)
        && isSubmitting == old(isSubmitting)
    {
      if !micGranted {
        return;
      }
      hasMediaRecorder := true;
      audioChunks := [];
      isRecording := true;
      isPaused := false;
      recordingTime := 0;
      if timerSet {
        liveIntervals := liveIntervals - 1;
      }
      timerSet := true;
      liveIntervals := liveIntervals + 1;
    }

    /** `ondataavailable`: a chunk with data is appended, an empty one dropped. */
    method OnDataAvailable(data: seq<byte>)
      requires Valid()
      modifies this`audioChunks
      ensures Valid()
      ensures audioChunks == old(audioChunks) + NonEmptyChunks([data])
    {
      if |data| > 0 {
        audioChunks := audioChunks + [data];
      }
    }

    /** `onstop`: the kept chunks become the recording's blob. */
    method OnStop()
      requires Valid()
      modifies this`audioBlob
      ensures Valid()
      ensures audioBlob == Some(Flatten(audioChunks))
    {
      audioBlob := Some(Flatten(audioChunks));
    }

    /** `stopRecording()`: only while recording; recording ends and the timer is cleared. `isPaused` is left as it was. */
    method StopRecording()
      requires Valid()
      modifies this
      ensures Valid()
      ensures NoLeakedTimer() ==> old(NoLeakedTimer())
      ensures old(NoLeakedTimer()) ==> NoLeakedTimer()
      ensures !(old(hasMediaRecorder) && old(isRecording)) ==> unchanged(this)
      ensures old(hasMediaRecorder) && old(isRecording) ==>
        && !isRecording && !timerSet && isPaused == old(isPaused)
        && liveIntervals == old(liveIntervals) - (if old(timerSet) then 1 else 0)
        && recordingTime == old(recordingTime) && audioChunks == old(audioChunks) && audioBlob == old(audioBlob)
        && hasMediaRecorder && title == old(title) && unlockDate == old(unlockDate) && isSubmitting == old(isSubmitting)
    {
      if hasMediaRecorder && isRecording {
        isRecording := false;
        if timerSet {
          liveIntervals := liveIntervals - 1;
          timerSet := false;
        }
      }
    }

    /** `pauseRecording()`: only while recording and not paused; pauses and clears the timer. */
    method PauseRecording()
      requires Valid()
      modifies this
      ensures Valid()
      ensures old(NoLeakedTimer()) ==> NoLeakedTimer()
      ensures !(old(hasMediaRecorder) && old(isRecording) && !old(isPaused)) ==> unchanged(this)
      ensures old(hasMediaRecorder) && old(isRecording) && !old(isPaused) ==>
        && isRecording && isPaused && !timerSet && liveIntervals == old(liveIntervals) - 1
        && recordingTime == old(recordingTime) && audioChunks == old(audioChunks) && audioBlob == old(audioBlob)
        && hasMediaRecorder && title == old(title) && unlockDate == old(unlockDate) && isSubmitting == old(isSubmitting)
    {
      if hasMediaRecorder && isRecording && !isPaused {
        isPaused := true;
        if timerSet {
          liveIntervals := liveIntervals - 1;
          timerSet := false;
        }
      }
    }

    /** `resumeRecording()`: only while recording and paused; resumes and sets a new interval. */
    method ResumeRecording()
      requires Valid()
      modifies this
      ensures Valid()
      ensures old(NoLeakedTimer()) ==> NoLeakedTimer()
      ensures !(old(hasMediaRecorder) && old(isRecording) && old(isPaused)) ==> unchanged(this)
      ensures old(hasMediaRecorder) && old(isRecording) && old(isPaused) ==>
        && isRecording && !isPaused && timerSet && liveIntervals == old(liveIntervals) + 1
        && recordingTime == old(recordingTime) && audioChunks == old(audioChunks) && audioBlob == old(audioBlob)
        && hasMediaRecorder && title == old(title) && unlockDate == old(unlockDate) && isSubmitting == old(isSubmitting)
    {
      if hasMediaRecorder && isRecording && isPaused {
        isPaused := false;
        timerSet := true;
        liveIntervals := liveIntervals + 1;
      }
    }

    /**
     * One firing of a running interval: `setRecordingTime(prev => prev + 1)`.
     * With no leaked interval, time only advances while recording and not paused.
     */
    method Tick()
      requires Valid() && liveIntervals > 0
      modifies this`recordingTime
      ensures Valid()
      ensures recordingTime == old(recordingTime) + 1
      ensures NoLeakedTimer() ==> isRecording && !isPaused
    {
      recordingTime := recordingTime + 1;
    }

    /** `handleSave()` up to its first `await`: the checks, and `isSubmitting` set once they all pass. */
    method HandleSave() returns (check: SaveCheck)
      modifies this`isSubmitting
      ensures check == ValidateSave(audioBlob, title, unlockDate)
      ensures isSubmitting == (check == ReadyToSave || old(isSubmitting))
    {
      check := ValidateSave(audioBlob, title, unlockDate);
      if check == ReadyToSave {
        isSubmitting := true;
      }
    }
  }

  /**
   * Pressing "Record Again" (shown whenever a recording exists, also while
   * recording) twice, then stop: with `StartRecording` as written the first
   * interval is never cleared, so after the stop it still fires and the
   * time keeps running while nothing is recorded.
   */
  method RecordAgainTwiceAsWritten() returns (leaked: nat, recording: bool, time: nat)
    ensures leaked == 1 && !recording && time == 1
  {
    var r := new Recorder();
    r.StartRecording(true);
    r.StopRecording();
    r.OnStop();
    r.StartRecording(true);
    r.StartRecording(true);
    r.StopRecording();
    r.Tick();
    leaked, recording, time := r.liveIntervals, r.isRecording, r.recordingTime;
  }

  /** The same presses with the timer cleared first: after the stop no interval is left running. */
  method RecordAgainTwiceCorrected() returns (leaked: nat, recording: bool, time: nat)
    ensures leaked == 0 && !recording && time == 0
  {
    var r := new Recorder();
    r.StartRecordingClearingTimer(true);
    r.StopRecording();
    r.OnStop();
    r.StartRecordingClearingTimer(true);
    r.StartRecordingClearingTimer(true);
    r.StopRecording();
    leaked, recording, time := r.liveIntervals, r.isRecording, r.recordingTime;
  }
}
