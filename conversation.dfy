/**
 * The absence-report conversation: one session's state, the single candidate
 * record the handlers fill in field by field, and the handlers `start`,
 * `st1` .. `st5` and `cancel`. Each handler may only run in the state the
 * conversation routes it from, and only on a message its filter accepts.
 */
module Conversation {
  import opened Roster
  import opened AbsenceLog

  /** `ST1` .. `ST5`, and `End` for `ConversationHandler.END`, which is also
      where a session stands before its first `/start`. */
  datatype State = End | ST1 | ST2 | ST3 | ST4 | ST5

  const InformButton: string := "Inform that the child will not come"
  const Group1Button: string := "Group 1"
  const Group2Button: string := "Group 2"

  /** A `filters.Regex` of the shape `^(A|B)$`: the message is one of the
      alternatives, or one of them followed by a single newline (Python's `$`
      also matches just before a final newline). */
  predicate AnchoredMatch(text: string, alternatives: seq<string>) {
    text in alternatives ||
    (|text| > 0 && text[|text| - 1] == '\n' && text[..|text| - 1] in alternatives)
  }

  /** The filter in front of `st1`: the button text, possibly followed by a newline. */
  predicate IsInformChoice(text: string)
    ensures IsInformChoice(text) <==> text in {InformButton, InformButton + "\n"}
  {
    assert |text| > 0 && text[|text| - 1] == '\n' ==> text == text[..|text| - 1] + "\n";
    AnchoredMatch(text, [InformButton])
  }

  /** The filter in front of `st2`: one of the two group buttons, possibly
      followed by a newline. */
  predicate IsGroupChoice(text: string)
    ensures IsGroupChoice(text) <==>
      text in {Group1Button, Group2Button, Group1Button + "\n", Group2Button + "\n"}
  {
    assert |text| > 0 && text[|text| - 1] == '\n' ==> text == text[..|text| - 1] + "\n";
    AnchoredMatch(text, [Group1Button, Group2Button])
  }

  /** `filters.TEXT`: the message carries text. */
  predicate IsText(text: string) {
    text != []
  }

  /** `filters.COMMAND`: the message starts with a bot command. */
  predicate IsCommand(text: string) {
    text != [] && text[0] == '/'
  }

  /** `filters.TEXT & ~filters.COMMAND`, the filter in front of `st3` .. `st5`:
      any non-empty text whose first character is not a slash, so `/start`
      and `/cancel` never reach those handlers. */
  predicate IsFreeText(text: string)
    ensures IsFreeText(text) <==> |text| > 0 && text[0] != '/'
  {
    IsText(text) && !IsCommand(text)
  }

  /** The group `st2` records: '1' for exactly "Group 1", '2' for anything else. */
  function GroupOf(text: string): (g: string)
    ensures g == "1" <==> text == Group1Button
    ensures g == "1" || g == "2"
  {
    if text == Group1Button then "1" else "2"
  }

  class Session {
    const roster: seq<Child>
    const dir: Path
    const log: FileSystem
    var state: State
    var child: Child

    /** Which check holds in which state: a session waits for the first name
        only after the last-name check passed, and for the birth date only
        after the first-name check passed; from `ST3` on, the group is one of
        the two that `st2` can record. */
    ghost predicate Valid()
      reads this
    {
      && (state in {ST3, ST4, ST5} ==> child.group == "1" || child.group == "2")
      && (state in {ST4, ST5} ==> child.CheckLastName(roster))
      && (state == ST5 ==> child.CheckFirstName(roster))
    }

    /** A session over the loaded roster and the log directory, with the
        candidate record `Child('', '', '', '')`. */
    constructor (roster: seq<Child>, dir: Path, log: FileSystem)
      ensures Valid()
      ensures this.roster == roster && this.dir == dir && this.log == log
      ensures state == End && child == Child("", "", "", "")
    {
      this.roster := roster;
      this.dir := dir;
      this.log := log;
      state := End;
      child := Child("", "", "", "");
    }

    /** `start`: the entry command; the candidate record is not reset. */
    method Start()
      requires Valid() && state == End
      modifies this
      ensures Valid() && state == ST1
      ensures child == old(child)
      ensures log.files == old(log.files)
    {
      state := ST1;
    }

    /** `st1`: the user tapped the button; ask for the group. */
    method St1(text: string)
      requires Valid() && state == ST1 && IsInformChoice(text)
      modifies this
      ensures Valid() && state == ST2
      ensures child == old(child)
      ensures log.files == old(log.files)
    {
      state := ST2;
    }

    /** `st2`: record the group, ask for the last name. */
    method St2(text: string)
      requires Valid() && state == ST2 && IsGroupChoice(text)
      modifies this
      ensures Valid() && state == ST3
      ensures child == old(child).(group := GroupOf(text))
      ensures log.files == old(log.files)
    {
      child := child.(group := GroupOf(text));
      state := ST3;
    }

    /** `st3`: record the last name; go on only when the roster has a child
        with this group and last name. */
    method St3(text: string)
      requires Valid() && state == ST3 && IsFreeText(text)
      modifies this
      ensures Valid()
      ensures child == old(child).(lastName := text)
      ensures state == if child.CheckLastName(roster) then ST4 else End
      ensures log.files == old(log.files)
    {
      child := child.(lastName := text);
      if child.CheckLastName(roster) {
        state := ST4;
      } else {
        state := End;
      }
    }

    /** `st4`: record the first name; go on only when the roster has a child
        with this group, last name and first name. */
    method St4(text: string)
      requires Valid() && state == ST4 && IsFreeText(text)
      modifies this
      ensures Valid()
      ensures child == old(child).(firstName := text)
      ensures state == if child.CheckFirstName(roster) then ST5 else End
      ensures log.files == old(log.files)
    {
      child := child.(firstName := text);
      if child.CheckFirstName(roster) {
        MonotoneNarrowing(child, roster);
        state := ST5;
      } else {
        state := End;
      }
    }

    /** `st5`: record the birth date; on a full match write the candidate to
        the log for `today`, and in every case end the conversation. The log
        changes exactly when the candidate is a roster child. */
    method St5(text: string, today: Date)
      requires Valid() && state == ST5 && IsFreeText(text) && today.Valid()
      modifies this, log
      ensures Valid() && state == End
      ensures child == old(child).(bd := text)
      ensures log.files ==
        if child.CheckBd(roster) then Appended(old(log.files), LogPath(dir, today), child)
        else old(log.files)
      ensures log.files != old(log.files) <==> child in roster
    {
      child := child.(bd := text);
      CheckBdIsMembership(child, roster);
      if child.CheckBd(roster) {
        log.AppendAbsentChild(child, dir, today);
        AppendAlwaysWrites(old(log.files), LogPath(dir, today), child);
      }
      state := End;
    }

    /** `cancel`: the fallback command in any state of a running
        conversation; it ends the conversation and changes nothing else. */
    method Cancel()
      requires Valid() && state != End
      modifies this
      ensures Valid() && state == End
      ensures child == old(child)
      ensures log.files == old(log.files)
    {
      state := End;
    }
  }

  /** A report that matches the roster on every field is written once, after
      the header of a new day's file. */
  method ReportMatchingChild(today: Date)
    requires today.Valid()
  {
    var lee := Child("1", "Lee", "Min", "01.02.19");
    var log := new FileSystem(map[]);
    var s := new Session([lee], "logs", log);
    s.Start();
    s.St1(InformButton);
    s.St2(Group1Button);
    s.St3("Lee");
    assert s.state == ST4;
    s.St4("Min");
    assert s.state == ST5;
    s.St5("01.02.19", today);
    assert log.files == map[LogPath("logs", today) := [Header, ["1", "Lee", "Min", "01.02.19"]]];
  }

  /** A wrong birth date, an unknown last name and a cancel all leave the log as it was. */
  method ReportsThatWriteNothing(today: Date)
    requires today.Valid()
  {
    var lee := Child("1", "Lee", "Min", "01.02.19");
    var log := new FileSystem(map[]);
    var s := new Session([lee], "logs", log);
    s.Start();
    s.St1(InformButton);
    s.St2(Group1Button);
    s.St3("Lee");
    s.St4("Min");
    s.St5("02.02.19", today);
    assert log.files == map[];

    s.Start();
    s.St1(InformButton);
    s.St2(Group1Button);
    s.St3("Smith");
    assert s.state == End;

    s.Start();
    s.St1(InformButton);
    s.Cancel();
    assert s.state == End && log.files == map[];
  }
}
