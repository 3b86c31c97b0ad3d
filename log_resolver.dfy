/** `get_latest_log` (monitor.py): among the chat logs in the log directory, pick
    the newest `Fleet_` log whose text names the character as its listener. The
    directory listing is given as a snapshot of candidates. */
module LogResolver {
  import opened Text

  /** A directory entry as `get_latest_log` sees it: its name, its modification
      time, and its decoded text, or `None` when opening or reading it raises. */
  datatype Candidate = Candidate(name: string, mtime: int, content: Option<string>)

  predicate IsFleetLog(name: string) {
    StartsWith(name, "Fleet_")
  }

  /** `[... for file in os.listdir(log_dir) if file.startswith("Fleet_")]` */
  function FleetLogs(entries: seq<Candidate>): (r: seq<Candidate>)
    ensures forall c :: c in r <==> c in entries && IsFleetLog(c.name)
  {
    if entries == [] then []
    else if IsFleetLog(entries[0].name) then [entries[0]] + FleetLogs(entries[1..])
    else FleetLogs(entries[1..])
  }

  // ---------------------------------------------------------------------------
  // `fleet_logs.sort(key=os.path.getmtime, reverse=True)`: a stable sort, newest first.
  // ---------------------------------------------------------------------------

  ghost predicate NewestFirstOrder(s: seq<Candidate>) {
    forall i, j :: 0 <= i < j < |s| ==> s[i].mtime >= s[j].mtime
  }

  /** Put `c` in front of the first element that is not newer than it, so that
      `c` stays ahead of the later-listed entries with the same time. */
  function Insert(c: Candidate, sorted: seq<Candidate>): (r: seq<Candidate>)
    ensures |r| == |sorted| + 1
    ensures forall x :: x in r <==> x == c || x in sorted
  {
    if sorted == [] || c.mtime >= sorted[0].mtime then [c] + sorted
    else [sorted[0]] + Insert(c, sorted[1..])
  }

  function NewestFirst(cs: seq<Candidate>): (r: seq<Candidate>)
    ensures |r| == |cs|
    ensures forall x :: x in r <==> x in cs
  {
    if cs == [] then [] else Insert(cs[0], NewestFirst(cs[1..]))
  }

  lemma {:induction false} InsertKeepsCandidates(c: Candidate, sorted: seq<Candidate>)
    ensures multiset(Insert(c, sorted)) == multiset(sorted) + multiset{c}
    decreases |sorted|
  {
    if sorted != [] && c.mtime < sorted[0].mtime {
      InsertKeepsCandidates(c, sorted[1..]);
      assert sorted == [sorted[0]] + sorted[1..];
    }
  }

  lemma {:induction false} InsertKeepsOrder(c: Candidate, sorted: seq<Candidate>)
    requires NewestFirstOrder(sorted)
    ensures NewestFirstOrder(Insert(c, sorted))
    decreases |sorted|
  {
    if sorted != [] && c.mtime < sorted[0].mtime {
      InsertKeepsOrder(c, sorted[1..]);
      InsertKeepsCandidates(c, sorted[1..]);
      var rest := Insert(c, sorted[1..]);
      forall k | 0 <= k < |rest| ensures rest[k].mtime <= sorted[0].mtime {
        assert rest[k] in multiset(rest);
        assert rest[k] in multiset(sorted[1..]) || rest[k] == c;
      }
    }
  }

  /** The sort yields the same candidates, newest first. */
  lemma {:induction false} NewestFirstSorts(cs: seq<Candidate>)
    ensures NewestFirstOrder(NewestFirst(cs))
    ensures multiset(NewestFirst(cs)) == multiset(cs)
    decreases |cs|
  {
    if cs != [] {
      NewestFirstSorts(cs[1..]);
      InsertKeepsOrder(cs[0], NewestFirst(cs[1..]));
      InsertKeepsCandidates(cs[0], NewestFirst(cs[1..]));
      assert cs == [cs[0]] + cs[1..];
    }
  }

  // ---------------------------------------------------------------------------
  // `re.compile(rf"Listener:\s+{re.escape(name)}").search(text)`
  // ---------------------------------------------------------------------------

  /** The pattern, read literally, matches from i: "Listener:" at i, then at least
      one whitespace character up to j, then the name itself at j. */
  ghost predicate ListenerSpan(t: string, n: string, i: nat, j: nat) {
    i + 9 < j && j + |n| <= |t| && t[i..i + 9] == "Listener:" && AllIn(t, i + 9, j, IsSpace)
    && t[j..j + |n|] == n
  }

  ghost predicate NamesListener(t: string, n: string) {
    exists i: nat, j: nat :: ListenerSpan(t, n, i, j)
  }

  /** The pattern at start position i, with the greedy `\s+` resolved. */
  predicate ListenerAt(t: string, n: string, i: nat) {
    i + 9 <= |t| && t[i..i + 9] == "Listener:" &&
    var w := SkipWhile(t, i + 9, IsSpace);
    w > i + 9 && StartsWith(t[w..], n)
  }

  predicate ListenerFound(t: string, n: string) {
    exists i | 0 <= i <= |t| :: ListenerAt(t, n, i)
  }

  /** A match of the scan is a match of the pattern, with the whitespace run
      ending where the scan stopped. */
  lemma ListenerAtSound(t: string, n: string, i: nat)
    requires ListenerAt(t, n, i)
    ensures ListenerSpan(t, n, i, SkipWhile(t, i + 9, IsSpace))
  {
    var w := SkipWhile(t, i + 9, IsSpace);
    assert t[w..][..|n|] == t[w..w + |n|];
  }

  /** A match of the pattern for a name that does not start with whitespace is
      found by the scan from the same start. */
  lemma ListenerAtComplete(t: string, n: string, i: nat, j: nat)
    requires n == [] || !IsSpace(n[0])
    requires ListenerSpan(t, n, i, j)
    ensures ListenerAt(t, n, i)
  {
    RunWithin(t, i + 9, j, IsSpace);
    var w := SkipWhile(t, i + 9, IsSpace);
    if n != [] {
      assert t[j] == t[j..j + |n|][0];
      assert w == j;
      assert t[w..][..|n|] == t[j..j + |n|];
    }
  }

  /** For a stripped name the scan finds the pattern exactly when it occurs. */
  lemma ListenerFoundMeans(t: string, n: string)
    requires n == [] || !IsSpace(n[0])
    ensures ListenerFound(t, n) <==> NamesListener(t, n)
  {
    if ListenerFound(t, n) {
      var i :| 0 <= i <= |t| && ListenerAt(t, n, i);
      ListenerAtSound(t, n, i);
    }
    if NamesListener(t, n) {
      var i: nat, j: nat :| ListenerSpan(t, n, i, j);
      ListenerAtComplete(t, n, i, j);
    }
  }

  // ---------------------------------------------------------------------------
  // The choice.
  // ---------------------------------------------------------------------------

  /** The candidate can be read and its text names the listener. */
  predicate Matches(c: Candidate, n: string) {
    c.content.Some? && ListenerFound(c.content.value, n)
  }

  /** A candidate `get_latest_log` may return for the stripped name n. */
  predicate Eligible(c: Candidate, n: string) {
    IsFleetLog(c.name) && Matches(c, n)
  }

  /** entries[i] is the eligible entry with the latest time, and the first listed
      among eligible entries with that time. */
  ghost predicate IsNewestEligible(entries: seq<Candidate>, i: nat, n: string) {
    i < |entries| && Eligible(entries[i], n)
    && forall j :: 0 <= j < |entries| && Eligible(entries[j], n) ==>
         entries[j].mtime < entries[i].mtime || (entries[j].mtime == entries[i].mtime && i <= j)
  }

  /** There is at most one newest eligible entry, so the choice is determined. */
  lemma NewestEligibleUnique(entries: seq<Candidate>, i: nat, j: nat, n: string)
    requires IsNewestEligible(entries, i, n) && IsNewestEligible(entries, j, n)
    ensures i == j
  {
    assert entries[i].mtime == entries[j].mtime;
  }

  /** The loop over the sorted logs: the first one that can be read and matches. */
  function FirstMatch(s: seq<Candidate>, n: string): (r: Option<Candidate>)
    ensures r.Some? ==> r.value in s && Matches(r.value, n)
    ensures r.None? <==> forall c :: c in s ==> !Matches(c, n)
  {
    if s == [] then None
    else if Matches(s[0], n) then Some(s[0])
    else FirstMatch(s[1..], n)
  }

  /** Inserting c into a newest-first list changes the first match only when c
      matches and nothing newer that matches is ahead of it. */
  lemma {:induction false} FirstMatchOfInsert(c: Candidate, s: seq<Candidate>, n: string)
    requires NewestFirstOrder(s)
    ensures FirstMatch(Insert(c, s), n) ==
              if !Matches(c, n) then FirstMatch(s, n)
              else if FirstMatch(s, n).Some? && FirstMatch(s, n).value.mtime > c.mtime then FirstMatch(s, n)
              else Some(c)
    decreases |s|
  {
    if s != [] {
      if c.mtime >= s[0].mtime {
        assert Insert(c, s)[1..] == s;
        if FirstMatch(s, n).Some? {
          var k :| 0 <= k < |s| && s[k] == FirstMatch(s, n).value;
          assert s[0].mtime >= s[k].mtime || k == 0;
        }
      } else {
        assert Insert(c, s)[1..] == Insert(c, s[1..]);
        FirstMatchOfInsert(c, s[1..], n);
      }
    }
  }

  /** The newest eligible entry of the tail stays the newest of the whole list
      when the head is not eligible or is strictly older. */
  lemma NewestOfTail(entries: seq<Candidate>, i: nat, n: string)
    requires |entries| > 0 && IsNewestEligible(entries[1..], i, n)
    requires !Eligible(entries[0], n) || entries[0].mtime < entries[1..][i].mtime
    ensures IsNewestEligible(entries, i + 1, n)
  {
    assert forall j :: 1 <= j < |entries| ==> entries[j] == entries[1..][j - 1];
  }

  /** An eligible head at least as new as the newest eligible entry after it is the newest. */
  lemma NewestAtHead(entries: seq<Candidate>, i: nat, n: string)
    requires |entries| > 0 && Eligible(entries[0], n)
    requires IsNewestEligible(entries[1..], i, n) && entries[1..][i].mtime <= entries[0].mtime
    ensures IsNewestEligible(entries, 0, n)
  {
    assert forall j :: 1 <= j < |entries| ==> entries[j] == entries[1..][j - 1];
  }

  /** An eligible head with no eligible entry after it is the newest. */
  lemma OnlyEligibleAtHead(entries: seq<Candidate>, n: string)
    requires |entries| > 0 && Eligible(entries[0], n)
    requires forall j :: 0 <= j < |entries[1..]| ==> !Eligible(entries[1..][j], n)
    ensures IsNewestEligible(entries, 0, n)
  {
    assert forall j :: 1 <= j < |entries| ==> entries[j] == entries[1..][j - 1];
  }

  /** Adding one entry in front of the listing: the choice moves to it exactly
      when it is eligible and no strictly newer eligible entry was chosen before. */
  lemma FirstMatchOfCons(entries: seq<Candidate>, n: string)
    requires entries != []
    ensures var r, r' := FirstMatch(NewestFirst(FleetLogs(entries)), n), FirstMatch(NewestFirst(FleetLogs(entries[1..])), n);
            if !Eligible(entries[0], n) then r == r'
            else if r'.Some? && r'.value.mtime > entries[0].mtime then r == r'
            else r == Some(entries[0])
  {
    if IsFleetLog(entries[0].name) {
      NewestFirstSorts(FleetLogs(entries[1..]));
      FirstMatchOfInsert(entries[0], NewestFirst(FleetLogs(entries[1..])), n);
    }
  }

  /** There is no choice exactly when no entry is eligible. */
  lemma {:induction false} NoMatchMeansNoneEligible(entries: seq<Candidate>, n: string)
    ensures FirstMatch(NewestFirst(FleetLogs(entries)), n).None? <==>
              forall j :: 0 <= j < |entries| ==> !Eligible(entries[j], n)
    decreases |entries|
  {
    if entries != [] {
      NoMatchMeansNoneEligible(entries[1..], n);
      FirstMatchOfCons(entries, n);
      assert forall j :: 1 <= j < |entries| ==> entries[j] == entries[1..][j - 1];
    }
  }

  /** The first readable match in the newest-first order of the fleet logs is
      the newest eligible entry, ties going to the one listed first. */
  lemma {:induction false} FirstMatchIsNewest(entries: seq<Candidate>, n: string)
    ensures FirstMatch(NewestFirst(FleetLogs(entries)), n).Some? ==>
              exists i: nat :: IsNewestEligible(entries, i, n)
                               && FirstMatch(NewestFirst(FleetLogs(entries)), n).value == entries[i]
    decreases |entries|
  {
    if entries != [] {
      var rest := entries[1..];
      FirstMatchIsNewest(rest, n);
      FirstMatchOfCons(entries, n);
      var r' := FirstMatch(NewestFirst(FleetLogs(rest)), n);
      var r := FirstMatch(NewestFirst(FleetLogs(entries)), n);
      if r'.Some? {
        var i': nat :| IsNewestEligible(rest, i', n) && r'.value == rest[i'];
        if !Eligible(entries[0], n) || r'.value.mtime > entries[0].mtime {
          NewestOfTail(entries, i', n);
          assert r.value == entries[i' + 1];
        } else {
          NewestAtHead(entries, i', n);
          assert r.value == entries[0];
        }
      } else if r.Some? {
        NoMatchMeansNoneEligible(rest, n);
        OnlyEligibleAtHead(entries, n);
        assert r.value == entries[0];
      }
    }
  }

  /** `get_latest_log(character_name)` over a snapshot of the log directory
      (`None` when listing it raises, e.g. when it does not exist). */
  method GetLatestLog(characterName: string, listing: Option<seq<Candidate>>) returns (r: Option<Candidate>)
    ensures listing.None? ==> r.None?
    ensures listing.Some? ==>
              (r.None? <==> forall j :: 0 <= j < |listing.value| ==> !Eligible(listing.value[j], Strip(characterName)))
    ensures r.Some? ==> listing.Some? && exists i: nat :: IsNewestEligible(listing.value, i, Strip(characterName))
                                                        && r.value == listing.value[i]
  {
    if listing.None? {
      return None;
    }
    var fleetLogs := FleetLogs(listing.value);
    fleetLogs := NewestFirst(fleetLogs);
    var name := Strip(characterName);
    FirstMatchIsNewest(listing.value, name);
    NoMatchMeansNoneEligible(listing.value, name);
    var i := 0;
    while i < |fleetLogs|
      invariant i <= |fleetLogs|
      invariant FirstMatch(fleetLogs, name) == FirstMatch(fleetLogs[i..], name)
    {
      assert fleetLogs[i..][1..] == fleetLogs[i + 1..];
      if Matches(fleetLogs[i], name) {
        return Some(fleetLogs[i]);
      }
      i := i + 1;
    }
    r := None;
  }

  /** Eligibility in terms of the pattern as written. */
  lemma EligibleMeans(c: Candidate, characterName: string)
    ensures Eligible(c, Strip(characterName)) <==>
              IsFleetLog(c.name) && c.content.Some? && NamesListener(c.content.value, Strip(characterName))
  {
    if c.content.Some? {
      ListenerFoundMeans(c.content.value, Strip(characterName));
    }
  }
}

/** Worked cases of the listener pattern. */
module LogResolverExamples {
  import opened Text
  import opened LogResolver

  /** The name is matched as a prefix of what follows the whitespace, so "Ali"
      also finds Alice's log. */
  lemma NameIsNotDelimited()
    ensures ListenerFound("Listener: Alice", "Ali")
  {
    var t := "Listener: Alice";
    assert t[0..9] == "Listener:";
    assert SkipWhile(t, 10, IsSpace) == 10;
    assert t[10..][..3] == "Ali";
    assert ListenerAt(t, "Ali", 0);
  }

  /** At least one whitespace character must follow the colon, and case matters. */
  lemma SpaceAndCaseMatter()
    ensures !ListenerFound("Listener:Alice", "Alice")
    ensures !ListenerFound("Listener: alice", "Alice")
  {
    var t := "Listener:Alice";
    forall i | 0 <= i <= |t| ensures !ListenerAt(t, "Alice", i) {
      if i == 0 {
        assert SkipWhile(t, 9, IsSpace) == 9;
      }
    }
    var u := "Listener: alice";
    forall i | 0 <= i <= |u| ensures !ListenerAt(u, "Alice", i) {
      if i == 0 {
        assert SkipWhile(u, 10, IsSpace) == 10;
        assert u[10..][0] == 'a';
      }
    }
  }
}
