/**
 * The coffee-break rota of coffee-break/coffee.go: read the participants, drop
 * last week's group, shuffle, take a group of three, record it in the history
 * and announce it. File contents, the random draws, the month and the reply to
 * the announcement are inputs; the new history file is an output.
 */
module CoffeeBreak {
  import opened Wrappers
  import opened Matching
  import opened Text
  import opened Trim
  import opened Notify

  /** How many past groups the history file keeps. */
  const HistoryLimit := 6

  /** The size of a coffee group. */
  const GroupSize := 3

  // ----- Participants -----

  /** The non-empty trimmed lines, in order. */
  function NonBlank(lines: seq<string>): (r: seq<string>)
    ensures |r| <= |lines|
    ensures forall k :: 0 <= k < |r| ==> r[k] != ""
  {
    if lines == [] then []
    else
      var t := TrimSpace(lines[|lines| - 1]);
      NonBlank(lines[..|lines| - 1]) + (if t != "" then [t] else [])
  }

  /** The participants a participants file names. */
  function Participants(content: string): seq<string> {
    NonBlank(Split(content, "\n"))
  }

  /** The loop over the file's lines that collects the participants. */
  method ParseParticipants(content: string) returns (participants: seq<string>)
    ensures participants == Participants(content)
  {
    var entries := Split(content, "\n");
    participants := [];
    var i := 0;
    while i < |entries|
      invariant i <= |entries|
      invariant participants == NonBlank(entries[..i])
    {
      var trimmed := TrimSpace(entries[i]);
      if trimmed != "" {
        participants := participants + [trimmed];
      }
      assert entries[..i + 1][..i] == entries[..i];
      i := i + 1;
    }
    assert entries[..|entries|] == entries;
  }

  /** Taking one more line adds its trim when that is not empty. */
  lemma NonBlankSnoc(init: seq<string>, line: string)
    ensures NonBlank(init + [line]) == NonBlank(init) + (if TrimSpace(line) != "" then [TrimSpace(line)] else [])
  {
    assert (init + [line])[..|init|] == init;
  }

  /** A name is a participant exactly when it is the non-empty trim of some line. */
  lemma {:induction false} NonBlankMembers(lines: seq<string>, x: string)
    ensures x in NonBlank(lines) <==> x != "" && exists k :: 0 <= k < |lines| && TrimSpace(lines[k]) == x
  {
    if lines != [] {
      var init, last := lines[..|lines| - 1], lines[|lines| - 1];
      assert lines == init + [last];
      NonBlankSnoc(init, last);
      NonBlankMembers(init, x);
      if exists k :: 0 <= k < |init| && TrimSpace(init[k]) == x {
        var k :| 0 <= k < |init| && TrimSpace(init[k]) == x;
        assert lines[k] == init[k];
      }
      if exists k :: 0 <= k < |lines| && TrimSpace(lines[k]) == x {
        var k :| 0 <= k < |lines| && TrimSpace(lines[k]) == x;
        if k < |init| {
          assert init[k] == lines[k];
        }
      }
    }
  }

  /** Every participant is trimmed already and holds no line break. */
  lemma {:induction false} NonBlankClean(lines: seq<string>)
    requires forall k :: 0 <= k < |lines| ==> '\n' !in lines[k]
    ensures forall k :: 0 <= k < |NonBlank(lines)| ==> TrimSpace(NonBlank(lines)[k]) == NonBlank(lines)[k] && '\n' !in NonBlank(lines)[k]
  {
    if lines != [] {
      var init := lines[..|lines| - 1];
      NonBlankClean(init);
      var t := TrimSpace(lines[|lines| - 1]);
      TrimSpaceAvoids(lines[|lines| - 1], '\n');
      if t != "" {
        TrimSpaceKeeps(t);
      }
    }
  }

  /** A text free of a one-character literal does not contain that character. */
  lemma CharFree(p: string, c: char)
    requires Free(p, [c])
    ensures c !in p
  {
    forall j | 0 <= j < |p| ensures p[j] != c {
      assert !OccursAt(p, [c], j);
      assert p[j..j + 1] == [p[j]];
    }
  }

  /** The lines of a file, as Split yields them, hold no line break. */
  lemma LinesHaveNoBreak(content: string)
    ensures forall k :: 0 <= k < |Split(content, "\n")| ==> '\n' !in Split(content, "\n")[k]
  {
    SplitPiecesFree(content, "\n");
    forall k | 0 <= k < |Split(content, "\n")| ensures '\n' !in Split(content, "\n")[k] {
      CharFree(Split(content, "\n")[k], '\n');
    }
  }

  /** Participants are trimmed, non-empty and hold no line break. */
  lemma ParticipantsClean(content: string)
    ensures forall k :: 0 <= k < |Participants(content)| ==>
      var p := Participants(content)[k];
      p != "" && TrimSpace(p) == p && '\n' !in p
  {
    LinesHaveNoBreak(content);
    NonBlankClean(Split(content, "\n"));
  }

  // ----- History -----

  /** The last `HistoryLimit` lines of a history. */
  function Window(lines: seq<string>): (w: seq<string>)
    ensures |w| == if |lines| > HistoryLimit then HistoryLimit else |lines|
  {
    if |lines| > HistoryLimit then lines[|lines| - HistoryLimit..] else lines
  }

  /** The window is the tail of the history: line `k` of the window is line `k` counted back from the end. */
  lemma WindowIsSuffix(lines: seq<string>)
    ensures var w := Window(lines);
            forall k :: 0 <= k < |w| ==> w[k] == lines[|lines| - |w| + k]
  {
  }

  /** The names of the most recent group in a history file: its last line, split on ", ". */
  function LastGroup(lastWeekContent: string): seq<string> {
    var window := Window(Split(lastWeekContent, "\n"));
    Split(window[|window| - 1], ", ")
  }

  /** The history after a round: the window, the new group's line appended, and the window again. */
  function NextHistory(lastWeekContent: string, group: seq<string>): (h: seq<string>)
    ensures 1 <= |h| <= HistoryLimit
    ensures h[|h| - 1] == Join(group, ", ")
  {
    Window(Window(Split(lastWeekContent, "\n")) + [Join(group, ", ")])
  }

  // ----- Eligibility -----

  /** The entries of `ps`, in order, that are not among `excluded`. */
  function Without(ps: seq<string>, excluded: seq<string>): (r: seq<string>)
    ensures |r| <= |ps|
  {
    if ps == [] then []
    else
      var last := ps[|ps| - 1];
      Without(ps[..|ps| - 1], excluded) + (if last in excluded then [] else [last])
  }

  /** Who may be drawn this round: the participants not in the most recent group. */
  function EligibleFor(participantsContent: string, lastWeekContent: string): seq<string> {
    Without(Participants(participantsContent), LastGroup(lastWeekContent))
  }

  /** The nested loop that keeps the participants not named last week. */
  method Eligible(participants: seq<string>, lastWeekParticipants: seq<string>) returns (eligible: seq<string>)
    ensures eligible == Without(participants, lastWeekParticipants)
  {
    eligible := [];
    var i := 0;
    while i < |participants|
      invariant i <= |participants|
      invariant eligible == Without(participants[..i], lastWeekParticipants)
    {
      var participant := participants[i];
      var isInLastWeek := false;
      var j := 0;
      while j < |lastWeekParticipants|
        invariant j <= |lastWeekParticipants|
        invariant !isInLastWeek
        invariant forall k :: 0 <= k < j ==> lastWeekParticipants[k] != participant
      {
        if participant == lastWeekParticipants[j] {
          isInLastWeek := true;
          break;
        }
        j := j + 1;
      }
      assert isInLastWeek <==> participant in lastWeekParticipants;
      if !isInLastWeek {
        eligible := eligible + [participant];
      }
      assert participants[..i + 1][..i] == participants[..i];
      i := i + 1;
    }
    assert participants[..|participants|] == participants;
  }

  /** A name survives the filter exactly when it is a participant not excluded. */
  lemma {:induction false} WithoutMembers(ps: seq<string>, excluded: seq<string>, x: string)
    ensures x in Without(ps, excluded) <==> x in ps && x !in excluded
  {
    if ps != [] {
      var init := ps[..|ps| - 1];
      WithoutMembers(init, excluded, x);
      assert ps == init + [ps[|ps| - 1]];
    }
  }

  /** Excluding names nobody has changes nothing. */
  lemma {:induction false} WithoutNothing(ps: seq<string>, excluded: seq<string>)
    requires forall k :: 0 <= k < |ps| ==> ps[k] !in excluded
    ensures Without(ps, excluded) == ps
  {
    if ps != [] {
      WithoutNothing(ps[..|ps| - 1], excluded);
      assert ps == ps[..|ps| - 1] + [ps[|ps| - 1]];
    }
  }

  // ----- Drawing the group -----

  /**
   * rand.Shuffle with the swap of coffee.go: for `i` from the last index down to 1,
   * exchange entry `i` with an entry `j`, `0 <= j <= i`; `roll(i)` stands for the random draw.
   */
  method Shuffle(a: array<string>, roll: nat -> nat)
    modifies a
    ensures multiset(a[..]) == multiset(old(a[..]))
  {
    var i := a.Length - 1;
    while i > 0
      invariant -1 <= i < a.Length
      invariant multiset(a[..]) == multiset(old(a[..]))
    {
      var j := roll(i) % (i + 1);
      a[i], a[j] := a[j], a[i];
      i := i - 1;
    }
  }

  /**
   * Shuffle the eligible participants and take the first three; fewer than
   * three eligible participants make the slice fail.
   */
  method DrawGroup(eligible: seq<string>, roll: nat -> nat) returns (group: Option<seq<string>>)
    ensures group.None? <==> |eligible| < GroupSize
    ensures group.Some? ==> |group.value| == GroupSize && multiset(group.value) <= multiset(eligible)
  {
    var pool := new string[|eligible|](k requires 0 <= k < |eligible| => eligible[k]);
    assert pool[..] == eligible;
    Shuffle(pool, roll);
    if pool.Length < GroupSize {
      return None;
    }
    group := Some(pool[..GroupSize]);
    PrefixWithin(pool[..], GroupSize);
    assert pool[..][..GroupSize] == pool[..GroupSize];
  }

  /** A prefix takes nothing that is not in the whole. */
  lemma PrefixWithin(s: seq<string>, n: nat)
    requires n <= |s|
    ensures multiset(s[..n]) <= multiset(s)
  {
    assert s == s[..n] + s[n..];
  }

  // ----- Announcing -----

  /** The Slack mention of a user ID. */
  function Mention(user: string): string {
    "<@" + user + ">"
  }

  /** Every user replaced by its mention, in order. */
  function Mentions(users: seq<string>): (r: seq<string>)
    ensures |r| == |users|
    ensures forall k :: 0 <= k < |users| ==> r[k] == Mention(users[k])
  {
    if users == [] then [] else [Mention(users[0])] + Mentions(users[1..])
  }

  /** The text of the announcement of a group. */
  function Announcement(month: string, group: seq<string>): string {
    "Coffee break group for " + month + " is: " + Join(Mentions(group), ", ")
  }

  /** The first loop of coffee.go's SendMessageToLatestThread, which rewrites the users in place, and the message it builds. */
  method AnnounceGroup(users: array<string>, month: string) returns (message: string)
    modifies users
    ensures users[..] == Mentions(old(users[..]))
    ensures message == Announcement(month, old(users[..]))
  {
    for i := 0 to users.Length
      invariant forall k :: 0 <= k < i ==> users[k] == Mention(old(users[k]))
      invariant forall k :: i <= k < users.Length ==> users[k] == old(users[k])
    {
      users[i] := Mention(users[i]);
    }
    message := "Coffee break group for " + month + " is: " + Join(users[..], ", ");
  }

  /** A user ID without ", " gives a mention without ", ". */
  lemma MentionFree(user: string)
    requires Free(user, ", ")
    ensures Free(Mention(user), ", ")
  {
    var m := Mention(user);
    assert m[0] == '<' && m[1] == '@' && m[|m| - 1] == '>';
    forall i: nat ensures !OccursAt(m, ", ", i) {
      if 2 <= i && i + 3 <= |m| {
        assert m[i..i + 2] == user[i - 2..i];
        assert !OccursAt(user, ", ", i - 2);
      }
    }
  }

  /** The announcement lists the mentions of the group, in order, after its fixed opening. */
  lemma AnnouncementListsGroup(month: string, group: seq<string>)
    requires |group| >= 1
    requires forall k :: 0 <= k < |group| ==> Free(group[k], ", ")
    ensures var opening := "Coffee break group for " + month + " is: ";
            var text := Announcement(month, group);
            opening <= text && Split(text[|opening|..], ", ") == Mentions(group)
  {
    var opening := "Coffee break group for " + month + " is: ";
    var ms := Mentions(group);
    forall k | 0 <= k < |ms| ensures SeparatesCleanly(ms[k], ", ") {
      MentionFree(group[k]);
      CommaFreeSeparates(ms[k]);
    }
    SplitJoin(ms, ", ");
    assert (opening + Join(ms, ", "))[|opening|..] == Join(ms, ", ");
  }

  // ----- A round -----

  /** The fatal errors of a round. */
  datatype CoffeeError =
    | NotEnoughParticipants  // "Not enough participants to form a group"
    | NotEnoughEligible      // the slice `eligibleParticipants[:3]` out of range

  /** What a round produces: the group, the new history file, the announcement and its delivery. */
  datatype Round = Round(group: seq<string>, lastWeekFile: string, message: string, delivery: Outcome<DeliveryError>)

  /** coffee.go's main, from the two files' contents to the new history file and the announcement. */
  method RunCoffeeBreak(participantsContent: string, lastWeekContent: string, roll: nat -> nat,
                        month: string, reply: Reply)
    returns (r: Result<Round, CoffeeError>)
    ensures r == Failure(NotEnoughParticipants) <==> |Participants(participantsContent)| < GroupSize
    ensures r == Failure(NotEnoughEligible) <==>
              |Participants(participantsContent)| >= GroupSize && |EligibleFor(participantsContent, lastWeekContent)| < GroupSize
    ensures r.Success? ==> |r.value.group| == GroupSize
    ensures r.Success? ==> multiset(r.value.group) <= multiset(EligibleFor(participantsContent, lastWeekContent))
    ensures r.Success? ==> r.value.lastWeekFile == Join(NextHistory(lastWeekContent, r.value.group), "\n")
    ensures r.Success? ==> r.value.message == Announcement(month, r.value.group)
    ensures r.Success? ==> r.value.delivery == CheckFormReply(reply)
  {
    var participants := ParseParticipants(participantsContent);
    if |participants| < GroupSize {
      return Failure(NotEnoughParticipants);
    }
    var eligible := EligibleThisRound(participants, lastWeekContent);
    var drawn := DrawGroup(eligible, roll);
    if drawn.None? {
      return Failure(NotEnoughEligible);
    }
    var round := RecordAndAnnounce(lastWeekContent, drawn.value, month, reply);
    return Success(round);
  }

  /** The eligibility step of a round: read the most recent group off the history and filter by it. */
  method EligibleThisRound(participants: seq<string>, lastWeekContent: string) returns (eligible: seq<string>)
    ensures eligible == Without(participants, LastGroup(lastWeekContent))
  {
    var lastWeek := Window(Split(lastWeekContent, "\n"));
    var lastWeekParticipants := Split(lastWeek[|lastWeek| - 1], ", ");
    eligible := Eligible(participants, lastWeekParticipants);
  }

  /** The end of a round: append the group to the history, announce it, and judge the reply. */
  method RecordAndAnnounce(lastWeekContent: string, group: seq<string>, month: string, reply: Reply)
    returns (round: Round)
    requires |group| == GroupSize
    ensures round.group == group
    ensures round.lastWeekFile == Join(NextHistory(lastWeekContent, group), "\n")
    ensures round.message == Announcement(month, group)
    ensures round.delivery == CheckFormReply(reply)
  {
    var lastWeek := Window(Split(lastWeekContent, "\n"));
    lastWeek := Window(lastWeek + [Join(group, ", ")]);
    var lastWeekFile := Join(lastWeek, "\n");
    var users := new string[GroupSize](k requires 0 <= k < GroupSize => group[k]);
    assert users[..] == group;
    var message := AnnounceGroup(users, month);
    round := Round(group, lastWeekFile, message, CheckFormReply(reply));
  }

  /** Every member of a drawn group is a participant who was not in the most recent group. */
  lemma GroupMembersEligible(participantsContent: string, lastWeekContent: string, group: seq<string>)
    requires multiset(group) <= multiset(EligibleFor(participantsContent, lastWeekContent))
    ensures forall x :: x in group ==> x in Participants(participantsContent) && x !in LastGroup(lastWeekContent)
  {
    forall x | x in group ensures x in Participants(participantsContent) && x !in LastGroup(lastWeekContent) {
      assert x in multiset(group);
      assert x in EligibleFor(participantsContent, lastWeekContent);
      WithoutMembers(Participants(participantsContent), LastGroup(lastWeekContent), x);
    }
  }

  /** Every line of the next history holds no line break. */
  lemma NextHistoryLines(lastWeekContent: string, group: seq<string>)
    requires forall k :: 0 <= k < |group| ==> '\n' !in group[k]
    ensures forall k :: 0 <= k < |NextHistory(lastWeekContent, group)| ==> '\n' !in NextHistory(lastWeekContent, group)[k]
  {
    var lines := Split(lastWeekContent, "\n");
    LinesHaveNoBreak(lastWeekContent);
    JoinAvoids(group, ", ", '\n');
    var w := Window(lines);
    var grown := w + [Join(group, ", ")];
    WindowIsSuffix(lines);
    forall k | 0 <= k < |grown| ensures '\n' !in grown[k] {
      if k < |w| {
        assert w[k] == lines[|lines| - |w| + k];
      }
    }
    var h := Window(grown);
    WindowIsSuffix(grown);
    forall k | 0 <= k < |h| ensures '\n' !in h[k] {
      assert h[k] == grown[|grown| - |h| + k];
    }
  }

  /**
   * The history file a round writes reads back with the new group as its most
   * recent one, as long as no member's name contains ", " or a line break.
   */
  lemma HistoryReadsBack(lastWeekContent: string, group: seq<string>)
    requires |group| >= 1
    requires forall k :: 0 <= k < |group| ==> Free(group[k], ", ") && '\n' !in group[k]
    ensures LastGroup(Join(NextHistory(lastWeekContent, group), "\n")) == group
  {
    var h := NextHistory(lastWeekContent, group);
    NextHistoryLines(lastWeekContent, group);
    forall k | 0 <= k < |h| ensures SeparatesCleanly(h[k], "\n") {
      NewlineFreeSeparates(h[k]);
    }
    SplitJoin(h, "\n");
    assert Window(h) == h;
    forall k | 0 <= k < |group| ensures SeparatesCleanly(group[k], ", ") {
      CommaFreeSeparates(group[k]);
    }
    SplitJoin(group, ", ");
  }

  /**
   * Consecutive rounds: nobody drawn this round is eligible in the next one,
   * whatever the participants are then, provided no drawn name contains ", ".
   */
  lemma NextRoundExcludesGroup(participantsContent: string, lastWeekContent: string, group: seq<string>,
                               nextParticipants: string)
    requires |group| >= 1
    requires multiset(group) <= multiset(EligibleFor(participantsContent, lastWeekContent))
    requires forall k :: 0 <= k < |group| ==> Free(group[k], ", ")
    ensures var next := Join(NextHistory(lastWeekContent, group), "\n");
            forall x :: x in group ==> x !in EligibleFor(nextParticipants, next)
  {
    GroupMembersEligible(participantsContent, lastWeekContent, group);
    ParticipantsClean(participantsContent);
    forall k | 0 <= k < |group| ensures '\n' !in group[k] {
      assert group[k] in Participants(participantsContent);
    }
    HistoryReadsBack(lastWeekContent, group);
    var next := Join(NextHistory(lastWeekContent, group), "\n");
    forall x | x in group ensures x !in EligibleFor(nextParticipants, next) {
      WithoutMembers(Participants(nextParticipants), LastGroup(next), x);
    }
  }

  /** Splitting a text that ends in a line break yields an empty last line. */
  lemma {:induction false} SplitEndsEmpty(s: string)
    ensures var parts := Split(s + "\n", "\n");
            parts[|parts| - 1] == ""
    decreases |s|
  {
    var t := s + "\n";
    var r := IndexFrom(t, "\n", 0);
    assert OccursAt(t, "\n", |s|);
    IndexFromLeftmost(t, "\n", 0);
    IndexFromOccurs(t, "\n", 0);
    var i := r.value;
    SplitAt(t, "\n", i);
    if i == |s| {
      assert t[i + 1..] == [];
    } else {
      assert t[i + 1..] == s[i + 1..] + "\n";
      SplitEndsEmpty(s[i + 1..]);
    }
  }

  /**
   * A history file that ends in a line break names an empty last group, so the
   * next round excludes nobody.
   */
  lemma TrailingBreakExcludesNobody(participantsContent: string, history: string)
    ensures EligibleFor(participantsContent, history + "\n") == Participants(participantsContent)
  {
    SplitEndsEmpty(history);
    var lines := Split(history + "\n", "\n");
    var w := Window(lines);
    WindowIsSuffix(lines);
    assert w[|w| - 1] == lines[|lines| - 1];
    assert LastGroup(history + "\n") == Split("", ", ");
    assert Split("", ", ") == [""];
    WithoutNothing(Participants(participantsContent), [""]);
  }
}
