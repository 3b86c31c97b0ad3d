/** The monitoring session of monitor.py: the background task that tails the
    chosen fleet log (`monitor_log_updates`), the restart logic around it
    (`start_monitoring`) and the "Load Character" action
    (`load_character_monitor`). The module-level `monitor_thread` and
    `stop_event`, and the GUI's `count_holder`, `count_var` and `log_file_var`,
    are the fields of one `Monitor` object. Threads are modelled by running the
    tail loop over an explicit schedule of what happens around it. */
module Session {
  import opened Text
  import opened LineClassifier
  import opened LogResolver
  import opened Eve

  /** A chat log being written by the game client. */
  class LogFile {
    const name: string
    var text: string
  }

  /** `monitor_thread`: the file it tails, its read position, and whether it is alive. */
  datatype Task = Task(path: string, pos: nat, alive: bool)

  /** What happens, in order, while the tail loop runs: one pass of the loop
      (`Poll`), the game client appending to the log (`Write`), another thread
      setting `stop_event` (`Stop`), or reading the file raising (`Fail`). */
  datatype Tick = Poll | Write(data: string) | Stop | Fail

  // ---------------------------------------------------------------------------
  // `f.readline()` on a file opened in text mode.
  // ---------------------------------------------------------------------------

  /** Where `readline` from `pos` stops: just after the next newline, or at the
      end of what has been written so far (a line still being written is
      returned in pieces). */
  function LineEnd(text: string, pos: nat): (e: nat)
    requires pos <= |text|
    ensures pos <= e <= |text|
    ensures e == pos <==> pos == |text|
    ensures forall j :: pos <= j < e - 1 ==> text[j] != '\n'
    ensures pos < e < |text| ==> text[e - 1] == '\n'
    decreases |text| - pos
  {
    if pos == |text| then pos
    else if text[pos] == '\n' then pos + 1
    else LineEnd(text, pos + 1)
  }

  /** What one `readline` can return: something, with a newline at most at its end. */
  predicate IsLine(s: string) {
    s != [] && forall j :: 0 <= j < |s| - 1 ==> s[j] != '\n'
  }

  /** A non-empty `readline` result is one line, or the part of it written so far. */
  lemma ReadLineIsLine(text: string, pos: nat)
    requires pos < |text|
    ensures IsLine(text[pos..LineEnd(text, pos)])
  {
    var e := LineEnd(text, pos);
    forall j | 0 <= j < e - pos - 1 ensures text[pos..e][j] != '\n' {
      assert text[pos..e][j] == text[pos + j];
    }
  }

  function Concat(lines: seq<string>): string {
    if lines == [] then [] else Concat(lines[..|lines| - 1]) + lines[|lines| - 1]
  }

  /** Everything the schedule appends to the log. */
  function Written(script: seq<Tick>): string
    decreases |script|
  {
    if script == [] then []
    else (if script[0].Write? then script[0].data else []) + Written(script[1..])
  }

  /** The schedule stops the loop: a pass of the loop finds `stop_event` set,
      or reading raises. `stop` says whether the event is set at the start. */
  function Ends(stop: bool, script: seq<Tick>): bool
    decreases |script|
  {
    if script == [] then false
    else match script[0]
      case Poll => stop || Ends(stop, script[1..])
      case Write(_) => Ends(stop, script[1..])
      case Stop => Ends(true, script[1..])
      case Fail => true
  }

  /** The stop flag at the end of the schedule. */
  function StopAfter(stop: bool, script: seq<Tick>): bool {
    stop || Stop in script
  }

  lemma {:induction false} EndsSnoc(stop: bool, script: seq<Tick>, t: Tick)
    ensures Ends(stop, script + [t]) ==
              (Ends(stop, script) || t.Fail? || (t.Poll? && StopAfter(stop, script)))
    decreases |script|
  {
    if script == [] {
      assert [t][1..] == [];
    } else {
      assert (script + [t])[1..] == script[1..] + [t];
      assert script == [script[0]] + script[1..];
      match script[0]
      case Poll => EndsSnoc(stop, script[1..], t);
      case Write(_) => EndsSnoc(stop, script[1..], t);
      case Stop => EndsSnoc(true, script[1..], t);
      case Fail =>
    }
  }

  /** A loop that has stopped stays stopped, whatever comes after. */
  lemma {:induction false} EndsIsFinal(stop: bool, a: seq<Tick>, b: seq<Tick>)
    requires Ends(stop, a)
    ensures Ends(stop, a + b)
    decreases |a|
  {
    assert (a + b)[1..] == a[1..] + b;
    match a[0]
    case Poll => if !stop { EndsIsFinal(stop, a[1..], b); }
    case Write(_) => EndsIsFinal(stop, a[1..], b);
    case Stop => EndsIsFinal(true, a[1..], b);
    case Fail =>
  }

  /** Once `stop_event` is set, the loop ends at its next pass, and a schedule
      without a `Stop` or `Fail` leaves it running. */
  lemma {:induction false} StopEndsAtNextPoll(stop: bool, a: seq<Tick>, b: seq<Tick>)
    requires Stop !in a && (forall k :: 0 <= k < |a| ==> !a[k].Fail?)
    ensures Ends(stop, a) == (stop && Poll in a)
    ensures Ends(false, a + [Stop, Poll] + b)
    decreases |a|
  {
    if a != [] {
      assert a == [a[0]] + a[1..];
      StopEndsAtNextPoll(stop, a[1..], b);
      assert (a + [Stop, Poll] + b)[1..] == a[1..] + [Stop, Poll] + b;
    } else {
      assert ([Stop, Poll] + b)[1..] == [Poll] + b;
    }
  }

  /** Appending to the log does not change what was already there. */
  lemma SliceOfExtended(text: string, d: string, a: nat, b: nat)
    requires a <= b <= |text|
    ensures (text + d)[a..b] == text[a..b]
  {
  }

  /** One `readline` that returns something extends the text read so far by
      exactly that piece. */
  lemma ReadStep(text: string, pos0: nat, pos: nat, read: seq<string>)
    requires pos0 <= pos < |text| && Concat(read) == text[pos0..pos]
    ensures Concat(read + [text[pos..LineEnd(text, pos)]]) == text[pos0..LineEnd(text, pos)]
  {
    var line := text[pos..LineEnd(text, pos)];
    assert (read + [line])[..|read|] == read;
    assert text[pos0..pos] + line == text[pos0..LineEnd(text, pos)];
  }

  /** One more line read moves the count by one `Step`. */
  lemma FoldSnoc(count0: int, read: seq<string>, line: string)
    ensures Fold(count0, read + [line]) == Step(Fold(count0, read), line)
  {
    FoldAppend(count0, read, [line]);
    assert [line][1..] == [];
  }

  // ---------------------------------------------------------------------------
  // The tail loop event by event, as a function of the schedule.
  // ---------------------------------------------------------------------------

  /** What the tail has done so far: the log as written, the read position,
      whether `stop_event` is set, whether the loop still runs, and the pieces
      `readline` returned, in order. */
  datatype Tail = Tail(text: string, pos: nat, stop: bool, alive: bool, read: seq<string>)

  /** One event, by the rules of `monitor_log_updates`: a pass of a live loop
      ends it when the stop event is set and otherwise reads up to the end of
      the next line; a loop that has ended reads nothing more. */
  function Next(s: Tail, t: Tick): (r: Tail)
    requires s.pos <= |s.text|
    ensures s.pos <= r.pos <= |r.text| && s.text <= r.text
    ensures r.stop == (s.stop || t.Stop?)
    ensures r.pos != s.pos ==> t.Poll? && s.alive && !s.stop
  {
    match t
    case Write(d) => s.(text := s.text + d)
    case Stop => s.(stop := true)
    case Fail => s.(alive := false)
    case Poll =>
      if !s.alive then s
      else if s.stop then s.(alive := false)
      else
        var e := LineEnd(s.text, s.pos);
        s.(pos := e, read := s.read + (if e > s.pos then [s.text[s.pos..e]] else []))
  }

  /** The whole schedule, event by event. */
  function Run(s: Tail, script: seq<Tick>): (r: Tail)
    requires s.pos <= |s.text|
    ensures s.pos <= r.pos <= |r.text|
    decreases |script|
  {
    if script == [] then s else Run(Next(s, script[0]), script[1..])
  }

  /** Running two schedules one after the other is running them joined. */
  lemma {:induction false} RunAppend(s: Tail, a: seq<Tick>, b: seq<Tick>)
    requires s.pos <= |s.text|
    ensures Run(s, a + b) == Run(Run(s, a), b)
    decreases |a|
  {
    if a == [] {
      assert a + b == b;
    } else {
      assert (a + b)[0] == a[0] && (a + b)[1..] == a[1..] + b;
      RunAppend(Next(s, a[0]), a[1..], b);
    }
  }

  /** A loop that has ended reads nothing more, whatever happens after. */
  lemma {:induction false} StoppedReadsNothing(s: Tail, script: seq<Tick>)
    requires s.pos <= |s.text| && !s.alive
    ensures !Run(s, script).alive && Run(s, script).pos == s.pos && Run(s, script).read == s.read
    decreases |script|
  {
    if script != [] {
      StoppedReadsNothing(Next(s, script[0]), script[1..]);
    }
  }

  /** The loop is still running exactly when the schedule has not ended it. */
  lemma {:induction false} RunAlive(s: Tail, script: seq<Tick>)
    requires s.pos <= |s.text|
    ensures Run(s, script).alive == (s.alive && !Ends(s.stop, script))
    decreases |script|
  {
    if script != [] {
      if !s.alive {
        StoppedReadsNothing(s, script);
      } else {
        RunAlive(Next(s, script[0]), script[1..]);
      }
    }
  }

  /** The log at the end is the log at the start and everything the schedule wrote. */
  lemma {:induction false} RunText(s: Tail, script: seq<Tick>)
    requires s.pos <= |s.text|
    ensures Run(s, script).text == s.text + Written(script)
    decreases |script|
  {
    if script == [] {
      assert s.text + [] == s.text;
    } else {
      var d := if script[0].Write? then script[0].data else [];
      assert Next(s, script[0]).text == s.text + d;
      RunText(Next(s, script[0]), script[1..]);
      assert s.text + d + Written(script[1..]) == s.text + (d + Written(script[1..]));
    }
  }

  /** The stop event is set at the end exactly when it was set at the start or
      the schedule sets it. */
  lemma {:induction false} RunStop(s: Tail, script: seq<Tick>)
    requires s.pos <= |s.text|
    ensures Run(s, script).stop == StopAfter(s.stop, script)
    decreases |script|
  {
    if script != [] {
      assert script == [script[0]] + script[1..];
      RunStop(Next(s, script[0]), script[1..]);
    }
  }

  /** The pieces read so far are, in order and without gaps, the text between
      the position p0 the tail started from and the read position, and each is
      one line or the part of it written so far. */
  ghost predicate ReadsText(s: Tail, p0: nat) {
    p0 <= s.pos <= |s.text| && Concat(s.read) == s.text[p0..s.pos]
    && forall j :: 0 <= j < |s.read| ==> IsLine(s.read[j])
  }

  lemma NextReadsText(s: Tail, t: Tick, p0: nat)
    requires ReadsText(s, p0)
    ensures ReadsText(Next(s, t), p0)
  {
    match t
    case Write(d) =>
      SliceOfExtended(s.text, d, p0, s.pos);
    case Poll =>
      PollKeepsReadsText(s, p0);
    case Stop =>
    case Fail =>
  }

  lemma PollKeepsReadsText(s: Tail, p0: nat)
    requires ReadsText(s, p0)
    ensures ReadsText(Next(s, Poll), p0)
  {
    if s.alive && !s.stop && s.pos < |s.text| {
      var e := LineEnd(s.text, s.pos);
      ReadStep(s.text, p0, s.pos, s.read);
      ReadLineIsLine(s.text, s.pos);
      assert Next(s, Poll) == s.(pos := e, read := s.read + [s.text[s.pos..e]]);
    } else {
      assert s.read + [] == s.read;
    }
  }

  /** Whatever the schedule, the tail reads the log in order and without gaps. */
  lemma {:induction false} RunReadsText(s: Tail, script: seq<Tick>, p0: nat)
    requires ReadsText(s, p0)
    ensures ReadsText(Run(s, script), p0)
    decreases |script|
  {
    if script != [] {
      NextReadsText(s, script[0], p0);
      RunReadsText(Next(s, script[0]), script[1..], p0);
    }
  }

  /** A tail started at p0 on a live loop: the log at the end, the stop event,
      whether the loop still runs, and the text it has read. */
  lemma RunFromStart(text: string, p0: nat, stop: bool, script: seq<Tick>)
    requires p0 <= |text|
    ensures var r := Run(Tail(text, p0, stop, true, []), script);
      r.text == text + Written(script) && r.stop == StopAfter(stop, script)
      && r.alive == !Ends(stop, script) && ReadsText(r, p0)
  {
    var start := Tail(text, p0, stop, true, []);
    RunText(start, script);
    RunStop(start, script);
    RunAlive(start, script);
    RunReadsText(start, script, p0);
  }

  /** Once the schedule has ended the loop, later events read nothing. */
  lemma EndedReadsNothing(s: Tail, a: seq<Tick>, b: seq<Tick>)
    requires s.pos <= |s.text| && s.alive && Ends(s.stop, a)
    ensures Run(s, a + b).pos == Run(s, a).pos && Run(s, a + b).read == Run(s, a).read
  {
    RunAppend(s, a, b);
    RunAlive(s, a);
    StoppedReadsNothing(Run(s, a), b);
  }

  /** A pass of a live loop with the stop event clear and unread text reads
      exactly one line, or the part of it written so far. */
  lemma PollReadsLine(s: Tail)
    requires s.pos < |s.text| && s.alive && !s.stop
    ensures s.pos < Next(s, Poll).pos == LineEnd(s.text, s.pos)
    ensures Next(s, Poll).read == s.read + [s.text[s.pos..LineEnd(s.text, s.pos)]]
    ensures IsLine(s.text[s.pos..LineEnd(s.text, s.pos)])
  {
    ReadLineIsLine(s.text, s.pos);
  }

  /** The count after `start_monitoring` has joined the previous task: when that
      task was alive and had already read a line (`inFlight`) when the stop event
      was set, it still handles that line before it sees the event. */
  function JoinCount(count: int, previous: Option<Task>, inFlight: Option<string>): (r: int)
    ensures !(previous.Some? && previous.value.alive && inFlight.Some?) ==> r == count
    ensures previous.Some? && previous.value.alive && inFlight.Some? && '-' in inFlight.value ==> r == 0
    ensures inFlight.Some? && '-' !in inFlight.value ==> count <= r
  {
    if previous.Some? && previous.value.alive && inFlight.Some? then Step(count, inFlight.value) else count
  }

  /** The previous task after `start_monitoring` has stopped and joined it. */
  function Joined(previous: Option<Task>): (r: Option<Task>)
    ensures r.Some? ==> !r.value.alive
  {
    if previous.Some? then Some(previous.value.(alive := false)) else None
  }

  /** The message box `start_monitoring` shows when no log is found. */
  function NoLogMessage(characterName: string): string {
    "No log file found for character: " + characterName
  }

  /** The character name `load_character_monitor` takes from the dropdown text. */
  function SelectedName(selection: string): (r: string)
    ensures |r| <= |selection|
    ensures r == [] || (!IsSpace(r[0]) && !IsSpace(r[|r| - 1]))
  {
    Strip(ReplaceAll(selection, EvePrefix, ""))
  }

  /** A text without a dash has no `EVE - ` in it. */
  lemma NoDashNoPrefix(s: string)
    requires '-' !in s
    ensures !Contains(s, EvePrefix)
  {
    forall i | 0 <= i <= |s| ensures !StartsWith(s[i..], EvePrefix) {
      if i + |EvePrefix| <= |s| {
        assert s[i..][..|EvePrefix|][4] == s[i + 4];
      }
    }
  }

  /** A dropdown entry without a dash is taken as it is, stripped. */
  lemma SelectedNameOfEntry(entry: string)
    requires '-' !in entry
    ensures SelectedName(entry) == Strip(entry)
  {
    NoDashNoPrefix(entry);
    ReplaceAllAbsent(entry, EvePrefix, "");
  }

  /** The placeholder survives the clean-up, so `load_character_monitor` recognises it. */
  lemma PlaceholderRecognised()
    ensures SelectedName(Placeholder) == Placeholder
  {
    assert '-' !in Placeholder by {
      assert forall j :: 0 <= j < |Placeholder| ==> Placeholder[j] != '-';
    }
    SelectedNameOfEntry(Placeholder);
    assert Placeholder[0] == 'N' && Placeholder[|Placeholder| - 1] == 'd';
    StripUnique(Placeholder, 0, |Placeholder|);
    assert Placeholder[0..|Placeholder|] == Placeholder;
  }

  /** Some listing entry is a fleet log that names the character. */
  ghost predicate HasEligible(listing: Option<seq<Candidate>>, n: string) {
    listing.Some? && exists i :: 0 <= i < |listing.value| && Eligible(listing.value[i], n)
  }

  /** The monitoring state: `stop_event`, `monitor_thread`, `log_file_var`,
      `count_holder[0]`, `count_var`, and the error boxes shown so far. */
  class Monitor {
    var stopSet: bool
    var task: Option<Task>
    var status: string
    var count: int
    var shown: int
    var errors: seq<string>

    /** The displayed count is the counter, and the counter is never negative. */
    ghost predicate Valid()
      reads this
    {
      count >= 0 && shown == count
    }

    /** The state `build_gui` starts from: no thread, stop event clear, count 0,
        and "None" as the log label. */
    constructor ()
      ensures Valid() && !stopSet && task == None && status == "None" && count == 0 && errors == []
    {
      stopSet := false;
      task := None;
      status := "None";
      count := 0;
      shown := 0;
      errors := [];
    }

    /** What `start_monitoring(characterName)` leaves behind, given the task,
        label and error boxes from before: the stop event is clear, and either
        a new live task tails the newest fleet log naming the character and the
        label shows its name, or (no such log) the old task stays stopped, the
        label is unchanged and one error box is added. */
    ghost predicate StartedFor(characterName: string, listing: Option<seq<Candidate>>, previous: Option<Task>,
                               status0: string, errors0: seq<string>)
      reads this
    {
      !stopSet &&
      if HasEligible(listing, Strip(characterName)) then
        errors == errors0 &&
        exists i: nat :: IsNewestEligible(listing.value, i, Strip(characterName))
                         && status == listing.value[i].name
                         && task == Some(Task(listing.value[i].name, |listing.value[i].content.value|, true))
      else
        task == Joined(previous) && status == status0 && errors == errors0 + [NoLogMessage(characterName)]
    }

    /** The first step of `start_monitoring`: a live task is told to stop
        and joined, after it has handled the line it was reading. */
    method StopPrevious(inFlight: Option<string>)
      requires Valid()
      modifies this`stopSet, this`task, this`count, this`shown
      ensures Valid()
      ensures task == Joined(old(task)) && count == JoinCount(old(count), old(task), inFlight)
      ensures stopSet == (old(stopSet) || (old(task).Some? && old(task).value.alive))
    {
      if task.Some? && task.value.alive {
        stopSet := true;
        if inFlight.Some? {
          count := Step(count, inFlight.value);
          shown := count;
        }
        task := Some(task.value.(alive := false));
      }
    }

    /** `start_monitoring`: stop and join a live task, clear the stop event,
        resolve the log, and either start one new task at the end of that log
        or show an error. */
    method StartMonitoring(characterName: string, listing: Option<seq<Candidate>>, inFlight: Option<string>)
      requires Valid()
      modifies this
      ensures Valid()
      ensures count == JoinCount(old(count), old(task), inFlight)
      ensures StartedFor(characterName, listing, old(task), old(status), old(errors))
    {
      StopPrevious(inFlight);
      stopSet := false;
      var logFile := GetLatestLog(characterName, listing);
      if logFile.None? {
        errors := errors + [NoLogMessage(characterName)];
        return;
      }
      ghost var i: nat :| IsNewestEligible(listing.value, i, Strip(characterName)) && logFile.value == listing.value[i];
      status := logFile.value.name;
      task := Some(Task(logFile.value.name, |logFile.value.content.value|, true));
    }

    /** `load_character_monitor`: ignore the placeholder; otherwise reset the
        count and (re)start monitoring for the selected character. */
    method LoadCharacterMonitor(selection: string, listing: Option<seq<Candidate>>, inFlight: Option<string>)
      requires Valid()
      modifies this
      ensures Valid()
      ensures SelectedName(selection) == Placeholder ==> unchanged(this)
      ensures SelectedName(selection) != Placeholder ==>
                count == JoinCount(0, old(task), inFlight)
                && StartedFor(SelectedName(selection), listing, old(task), old(status), old(errors))
    {
      var characterName := SelectedName(selection);
      if characterName == Placeholder {
        return;
      }
      count := 0;
      shown := 0;
      StartMonitoring(characterName, listing, inFlight);
    }

    /** One `readline` and the classification of what it returned: the read
        position moves to the end of the line, and a non-empty piece is added
        to the lines read and folded into the count. */
    method ReadLine(file: LogFile, pos: nat, read: seq<string>, ghost count0: int)
      returns (pos': nat, read': seq<string>)
      requires Valid() && pos <= |file.text| && count == Fold(count0, read)
      modifies this`count, this`shown
      ensures Valid() && pos' == LineEnd(file.text, pos)
      ensures read' == read + (if pos < |file.text| then [file.text[pos..pos']] else [])
      ensures count == Fold(count0, read')
    {
      pos', read' := LineEnd(file.text, pos), read;
      var line := file.text[pos..pos'];
      if line != [] {
        FoldSnoc(count0, read, line);
        count := Step(count, line);
        shown := count;
        read' := read + [line];
      }
    }

    /** One event of the schedule around the tail loop: the game client's write
        extends the log, another thread's stop sets the event, a read failure
        ends the loop, and a pass of a live loop either sees the event and ends
        or reads one line (a reset on a dash, the multiplier on an x-up). */
    method Advance(file: LogFile, t: Tick, pos: nat, alive: bool, read: seq<string>, ghost count0: int)
      returns (pos': nat, alive': bool, read': seq<string>)
      requires Valid() && pos <= |file.text| && count == Fold(count0, read)
      modifies this`stopSet, this`count, this`shown, file
      ensures Valid()
      ensures file.text == old(file.text) + (if t.Write? then t.data else [])
      ensures stopSet == (old(stopSet) || t.Stop?)
      ensures alive' == (alive && !t.Fail? && !(t.Poll? && old(stopSet)))
      ensures pos' == (if t.Poll? && alive && !old(stopSet) then LineEnd(old(file.text), pos) else pos)
      ensures read' == read + (if pos' > pos then [file.text[pos..pos']] else [])
      ensures Tail(file.text, pos', stopSet, alive', read') == Next(Tail(old(file.text), pos, old(stopSet), alive, read), t)
      ensures count == Fold(count0, read')
    {
      pos', alive', read' := pos, alive, read;
      match t {
      case Write(d) =>
        file.text := file.text + d;
      case Stop =>
        stopSet := true;
      case Fail =>
        alive' := false;
      case Poll =>
        if alive {
          if stopSet {
            alive' := false;
          } else {
            pos', read' := ReadLine(file, pos, read, count0);
          }
        }
      }
    }

    /** `monitor_log_updates`: from the position the task opened the file at,
        read line by line while `stop_event` is clear, reset the count on a
        dash and add the multiplier on an x-up. The lines read are exactly the
        text between the old and new read positions, in order, and the count
        is the fold of the classifier over them. */
    method MonitorLogUpdates(file: LogFile, script: seq<Tick>) returns (read: seq<string>)
      requires Valid() && task.Some? && task.value.alive
      requires task.value.path == file.name && task.value.pos <= |file.text|
      modifies this, file
      ensures Valid()
      ensures file.text == old(file.text) + Written(script)
      ensures task.Some? && task.value.path == old(task.value.path)
      ensures old(task.value.pos) <= task.value.pos <= |file.text|
      ensures Concat(read) == file.text[old(task.value.pos)..task.value.pos]
      ensures forall k :: 0 <= k < |read| ==> IsLine(read[k])
      ensures count == Fold(old(count), read)
      ensures stopSet == StopAfter(old(stopSet), script)
      ensures task.value.alive == !Ends(old(stopSet), script)
      ensures Tail(file.text, task.value.pos, stopSet, task.value.alive, read)
              == Run(Tail(old(file.text), old(task.value.pos), old(stopSet), true, []), script)
      ensures status == old(status) && errors == old(errors)
    {
      var pos: nat, alive := task.value.pos, true;
      ghost var pos0, text0, stop0, count0 := pos, file.text, stopSet, count;
      read := [];
      var k := 0;
      while k < |script|
        modifies this`stopSet, this`count, this`shown, file
        invariant k <= |script| && pos <= |file.text|
        invariant count == Fold(count0, read) && Valid()
        invariant Run(Tail(text0, pos0, stop0, true, []), script) == Run(Tail(file.text, pos, stopSet, alive, read), script[k..])
      {
        assert script[k..][0] == script[k] && script[k..][1..] == script[k + 1..];
        pos, alive, read := Advance(file, script[k], pos, alive, read, count0);
        k := k + 1;
      }
      assert script[k..] == [];
      RunFromStart(text0, pos0, stop0, script);
      task := Some(Task(task.value.path, pos, alive));
    }
  }
}

/** A worked example of the restart order in `load_character_monitor`. */
module SessionExamples {
  import opened Text
  import opened LineClassifier
  import opened LineClassifierExamples
  import opened Session

  /** The reset in `load_character_monitor` happens before the old task is
      joined, so a line that task had already read is counted on top of the
      reset: an in-flight " > x5" leaves the new session at 5, not 0. */
  lemma ResetCanBeOvertaken(path: string, pos: nat)
    ensures JoinCount(0, Some(Task(path, pos, true)), Some(" > x5")) == 5
    ensures JoinCount(0, Some(Task(path, pos, true)), None) == 0
  {
    DigitsAfterXCount(0);
    var t := Some(Task(path, pos, true));
    assert JoinCount(0, t, Some(" > x5")) == Step(0, " > x5");
  }
}
