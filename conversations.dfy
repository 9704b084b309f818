/**
 * The player-registration dialogue: a per-user state machine kept in one
 * shared map from Telegram user id to registration state, driven by the
 * `/register` command and by every text message, one message at a time.
 */
module Conversations {
  import opened Wrappers
  import opened JsText
  import opened Players

  /** Where a user's registration stands: waiting for a name, or waiting for a yes/no on a candidate name. */
  datatype RegistrationState = NameStep | ConfirmStep(name: string)

  /** Which reply the bot sends; the wording of each is left out. */
  datatype Reply =
    | CannotIdentifyUser
    | AskForName
    | NameLengthRetry
    | AskConfirmation(name: string)
    | Welcome(name: string)
    | CreationFailed
    | AskDifferentName
    | AskYesOrNo

  /** The parts of a text update the handler reads: the sender, the chat and the text. */
  datatype TextMessage = TextMessage(from: Option<int>, chat: Option<int>, text: string)

  type Registrations = map<int, RegistrationState>

  const MinNameLength: nat := 3
  const MaxNameLength: nat := 20

  /** The length check, on JavaScript's length in UTF-16 code units. */
  predicate NameLengthOk(name: string) {
    MinNameLength <= Utf16Length(name) <= MaxNameLength
  }

  /** What every candidate name waiting for confirmation satisfies: the length check, and no whitespace at either end. */
  predicate ValidCandidate(name: string) {
    NameLengthOk(name) && Unpadded(name)
  }

  /** The dialogue's invariant: every `ConfirmStep` holds a validated, trimmed name. */
  predicate CandidatesValid(regs: Registrations) {
    forall uid :: uid in regs && regs[uid].ConfirmStep? ==> ValidCandidate(regs[uid].name)
  }

  /** The reply, lower-cased and not trimmed, is "yes" or "y". */
  predicate IsAffirmative(text: string) {
    var response := ToLower(text);
    response == "yes" || response == "y"
  }

  /** The reply, lower-cased and not trimmed, is "no" or "n". */
  predicate IsNegative(text: string) {
    var response := ToLower(text);
    response == "no" || response == "n"
  }

  /** `c` is the letter `lower` in either case. */
  predicate EitherCase(c: char, lower: char)
    requires 'a' <= lower <= 'z'
  {
    c == lower || c as int == lower as int - 32
  }

  /** The accepted spellings of "yes": y or yes, each letter in either case. */
  lemma AffirmativeSpellings(text: string)
    ensures IsAffirmative(text) <==>
      || (|text| == 1 && EitherCase(text[0], 'y'))
      || (|text| == 3 && EitherCase(text[0], 'y') && EitherCase(text[1], 'e') && EitherCase(text[2], 's'))
  {
    var r := ToLower(text);
    if |text| == 1 {
      assert r == [LowerChar(text[0])];
    } else if |text| == 3 {
      assert r == [LowerChar(text[0]), LowerChar(text[1]), LowerChar(text[2])];
    }
  }

  /** The accepted spellings of "no": n or no, each letter in either case. */
  lemma NegativeSpellings(text: string)
    ensures IsNegative(text) <==>
      || (|text| == 1 && EitherCase(text[0], 'n'))
      || (|text| == 2 && EitherCase(text[0], 'n') && EitherCase(text[1], 'o'))
  {
    var r := ToLower(text);
    if |text| == 1 {
      assert r == [LowerChar(text[0])];
    } else if |text| == 2 {
      assert r == [LowerChar(text[0]), LowerChar(text[1])];
    }
  }

  /** The reply is not trimmed: any whitespace in it, such as " yes", makes it neither yes nor no. */
  lemma WhitespaceReplyUnrecognized(text: string, i: nat)
    requires i < |text| && IsWhitespace(text[i])
    ensures !IsAffirmative(text) && !IsNegative(text)
  {
    var r := ToLower(text);
    assert r[i] == text[i];
    assert "yes"[0] == 'y' && "yes"[1] == 'e' && "yes"[2] == 's';
    assert "no"[0] == 'n' && "no"[1] == 'o';
  }

  /** `/register`: a known sender's entry becomes `NameStep`, whatever it was; nothing else changes. */
  function OnRegister(regs: Registrations, from: Option<int>): (r: Registrations)
    ensures from.None? ==> r == regs
    ensures from.Some? ==> r.Keys == regs.Keys + {from.value} && r[from.value] == NameStep
    ensures forall uid :: uid in regs && (from.None? || uid != from.value) ==> r[uid] == regs[uid]
    ensures CandidatesValid(regs) ==> CandidatesValid(r)
  {
    if from.None? then regs else regs[from.value := NameStep]
  }

  /** The registrations, the players table and the reply (if any) after one text message. */
  datatype TextOutcome = TextOutcome(regs: Registrations, table: Table, reply: Option<Reply>)

  /**
   * The `message:text` handler as a function of the registrations, the table and
   * the message. `unavailable` says whether the database fails if it is written to.
   */
  function OnText(regs: Registrations, table: Table, msg: TextMessage, unavailable: bool): (o: TextOutcome)
    ensures ValidTable(table) ==> ValidTable(o.table)
    ensures forall uid :: (msg.from.None? || uid != msg.from.value) ==>
      (uid in o.regs <==> uid in regs) && (uid in regs ==> o.regs[uid] == regs[uid])
    ensures msg.from.Some? && msg.from.value in regs && msg.from.value !in o.regs ==>
      regs[msg.from.value].ConfirmStep? && IsAffirmative(msg.text)
  {
    if msg.from.None? || msg.chat.None? || msg.from.value !in regs then
      TextOutcome(regs, table, None)
    else
      var uid := msg.from.value;
      match regs[uid]
      case NameStep =>
        var name := Trim(msg.text);
        if !NameLengthOk(name) then
          TextOutcome(regs, table, Some(NameLengthRetry))
        else
          TextOutcome(regs[uid := ConfirmStep(name)], table, Some(AskConfirmation(name)))
      case ConfirmStep(name) =>
        if IsAffirmative(msg.text) then
          var ins := Insert(table, CreatePlayerData(name, uid, msg.chat.value), unavailable);
          if ins.result.Created? then
            TextOutcome(regs - {uid}, ins.table, Some(Welcome(ins.result.player.name)))
          else
            TextOutcome(regs, ins.table, Some(CreationFailed))
        else if IsNegative(msg.text) then
          TextOutcome(regs[uid := NameStep], table, Some(AskDifferentName))
        else
          TextOutcome(regs, table, Some(AskYesOrNo))
  }

  /** Every text message keeps the invariant that each candidate name is valid and trimmed. */
  lemma OnTextKeepsCandidatesValid(regs: Registrations, table: Table, msg: TextMessage, unavailable: bool)
    requires CandidatesValid(regs)
    ensures CandidatesValid(OnText(regs, table, msg, unavailable).regs)
  {
    if msg.from.Some? && msg.chat.Some? && msg.from.value in regs {
      var uid, chat, text := msg.from.value, msg.chat.value, msg.text;
      assert msg == TextMessage(Some(uid), Some(chat), text);
      if regs[uid].NameStep? {
        NameStepOutcome(regs, table, uid, chat, text, unavailable);
      } else if IsAffirmative(text) {
        ConfirmYesCommits(regs, table, uid, chat, text, unavailable);
      } else if IsNegative(text) {
        ConfirmNoRestarts(regs, table, uid, chat, text, unavailable);
      } else {
        ConfirmOtherRepeats(regs, table, uid, chat, text, unavailable);
      }
    } else {
      TextOutsideDialogueIgnored(regs, table, msg, unavailable);
    }
  }

  /** A message without a sender or chat, or from a user with no registration, changes nothing and gets no reply. */
  lemma TextOutsideDialogueIgnored(regs: Registrations, table: Table, msg: TextMessage, unavailable: bool)
    requires msg.from.None? || msg.chat.None? || msg.from.value !in regs
    ensures OnText(regs, table, msg, unavailable) == TextOutcome(regs, table, None)
  {
  }

  /** In the name step the trimmed text becomes the candidate exactly when its length is in [3, 20]; otherwise only a retry is sent. */
  lemma NameStepOutcome(regs: Registrations, table: Table, uid: int, chat: int, text: string, unavailable: bool)
    requires uid in regs && regs[uid] == NameStep
    ensures var o := OnText(regs, table, TextMessage(Some(uid), Some(chat), text), unavailable);
      && o.table == table
      && uid in o.regs
      && (o.regs[uid].ConfirmStep? <==> 3 <= Utf16Length(Trim(text)) <= 20)
      && (o.regs[uid].ConfirmStep? ==>
            o.regs == regs[uid := ConfirmStep(Trim(text))] && o.reply == Some(AskConfirmation(Trim(text))))
      && (!o.regs[uid].ConfirmStep? ==> o.regs == regs && o.reply == Some(NameLengthRetry))
  {
  }

  /** Whitespace around a valid name does not matter: the candidate is the name itself. */
  lemma PaddedNameAccepted(regs: Registrations, table: Table, uid: int, chat: int,
                           w1: string, name: string, w2: string, unavailable: bool)
    requires uid in regs && regs[uid] == NameStep
    requires ValidCandidate(name) && AllWhitespace(w1) && AllWhitespace(w2)
    ensures OnText(regs, table, TextMessage(Some(uid), Some(chat), w1 + name + w2), unavailable).regs
            == regs[uid := ConfirmStep(name)]
  {
    TrimIgnoresPadding(w1, name, w2);
    TrimmedIffUnpadded(name);
    NameStepOutcome(regs, table, uid, chat, w1 + name + w2, unavailable);
  }

  /**
   * A yes in the confirm step makes exactly one `createPlayer` call with the stored
   * name and the sender's ids; success deletes the entry, any failure of `createPlayer` keeps it as it was.
   */
  lemma ConfirmYesCommits(regs: Registrations, table: Table, uid: int, chat: int, text: string, unavailable: bool)
    requires uid in regs && regs[uid].ConfirmStep? && IsAffirmative(text)
    ensures var o := OnText(regs, table, TextMessage(Some(uid), Some(chat), text), unavailable);
      var ins := Insert(table, CreatePlayerData(regs[uid].name, uid, chat), unavailable);
      && o.table == ins.table
      && (ins.result.Created? ==> o.regs == regs - {uid} && o.reply == Some(Welcome(regs[uid].name)))
      && (ins.result.Failed? ==> o.regs == regs && o.reply == Some(CreationFailed))
  {
  }

  /** A no in the confirm step discards the candidate and goes back to the name step. */
  lemma ConfirmNoRestarts(regs: Registrations, table: Table, uid: int, chat: int, text: string, unavailable: bool)
    requires uid in regs && regs[uid].ConfirmStep? && IsNegative(text)
    ensures OnText(regs, table, TextMessage(Some(uid), Some(chat), text), unavailable)
            == TextOutcome(regs[uid := NameStep], table, Some(AskDifferentName))
  {
    assert !IsAffirmative(text);
  }

  /** Any other reply in the confirm step, " yes" included, changes nothing and asks for yes or no again. */
  lemma ConfirmOtherRepeats(regs: Registrations, table: Table, uid: int, chat: int, text: string, unavailable: bool)
    requires uid in regs && regs[uid].ConfirmStep? && !IsAffirmative(text) && !IsNegative(text)
    ensures OnText(regs, table, TextMessage(Some(uid), Some(chat), text), unavailable)
            == TextOutcome(regs, table, Some(AskYesOrNo))
  {
  }

  /** Replies that differ only in letter case have the same effect in the confirm step ("yes", "YES", "Yes"). */
  lemma ConfirmIgnoresCase(regs: Registrations, table: Table, uid: int, chat: int, t1: string, t2: string, unavailable: bool)
    requires uid in regs && regs[uid].ConfirmStep? && ToLower(t1) == ToLower(t2)
    ensures OnText(regs, table, TextMessage(Some(uid), Some(chat), t1), unavailable)
            == OnText(regs, table, TextMessage(Some(uid), Some(chat), t2), unavailable)
  {
  }

  /**
   * A text message adds at most one player: the sender, under the confirmed
   * candidate name, which a lookup by the sender's id then returns.
   */
  lemma TextAddsAtMostOnePlayer(regs: Registrations, table: Table, msg: TextMessage, unavailable: bool)
    ensures var o := OnText(regs, table, msg, unavailable);
      || o.table == table
      || (&& msg.from.Some? && msg.chat.Some? && msg.from.value in regs
          && regs[msg.from.value].ConfirmStep?
          && exists p: Player ::
               && o.table.rows == table.rows + [p]
               && p.name == regs[msg.from.value].name
               && p.telegramUserId == msg.from.value
               && p.telegramChatId == msg.chat.value
               && FindByTelegramUserId(o.table.rows, msg.from.value) == Some(p))
  {
    var o := OnText(regs, table, msg, unavailable);
    if o.table != table {
      var uid := msg.from.value;
      var data := CreatePlayerData(regs[uid].name, uid, msg.chat.value);
      var p := Insert(table, data, unavailable).result.player;
      CreatedPlayerIsFound(table, data, unavailable, uid);
      assert o.table.rows == table.rows + [p];
    }
  }

  /**
   * `/register` does not look for an existing player: a user who already has one
   * can reach the confirm step again, but a yes then only fails on the unique
   * constraint, and the entry stays.
   */
  lemma RegisteredUserGetsNoSecondPlayer(regs: Registrations, table: Table, msg: TextMessage, unavailable: bool)
    requires msg.from.Some? && HasTelegramUser(table.rows, msg.from.value)
    ensures var o := OnText(regs, table, msg, unavailable);
      && o.table == table
      && (msg.from.value in regs ==> msg.from.value in o.regs)
  {
  }

  // What trimming, measuring and lower-casing make of the texts of the walkthrough below.

  lemma ShortNameText(text: string)
    requires text == "Al"
    ensures !NameLengthOk(Trim(text))
  {
    assert !IsWhitespace('A') && !IsWhitespace('l');
    TrimmedIffUnpadded(text);
    Utf16LengthCountsCharacters(text);
  }

  lemma PaddedNameText(text: string, name: string)
    requires text == " Alice " && name == "Alice"
    ensures Trim(text) == name && NameLengthOk(name)
  {
    assert !IsWhitespace('A') && !IsWhitespace('e');
    TrimmedIffUnpadded(name);
    var space := " ";
    assert AllWhitespace(space);
    TrimIgnoresPadding(space, name, space);
    assert space + name + space == text;
    Utf16LengthCountsCharacters(name);
  }

  lemma PlainNameText(text: string)
    requires text == "Bob"
    ensures Trim(text) == text && NameLengthOk(text)
  {
    assert !IsWhitespace('B') && !IsWhitespace('b');
    TrimmedIffUnpadded(text);
    Utf16LengthCountsCharacters(text);
  }

  lemma UnrecognizedReplyText(text: string)
    requires text == "nope"
    ensures !IsAffirmative(text) && !IsNegative(text)
  {
    assert ToLower(text) == "nope";
  }

  lemma NoReplyText(text: string)
    requires text == "no"
    ensures IsNegative(text)
  {
    assert ToLower(text) == "no";
  }

  lemma UpperCaseYesText(text: string)
    requires text == "YES"
    ensures IsAffirmative(text)
  {
    assert ToLower(text) == "yes";
  }

  // A whole registration by a user with no player yet, one message at a time: the
  // too-short name "Al", the padded name " Alice ", the unrecognized reply "nope",
  // "no", the name "Bob" and "YES". Each outcome is the state the next message meets.

  lemma WalkthroughShortName(uid: int, chat: int, table: Table, text: string)
    requires text == "Al"
    ensures OnText(map[uid := NameStep], table, TextMessage(Some(uid), Some(chat), text), false)
            == TextOutcome(map[uid := NameStep], table, Some(NameLengthRetry))
  {
    ShortNameText(text);
    NameStepOutcome(map[uid := NameStep], table, uid, chat, text, false);
  }

  lemma WalkthroughPaddedName(uid: int, chat: int, table: Table, text: string, name: string)
    requires text == " Alice " && name == "Alice"
    ensures OnText(map[uid := NameStep], table, TextMessage(Some(uid), Some(chat), text), false)
            == TextOutcome(map[uid := ConfirmStep(name)], table, Some(AskConfirmation(name)))
  {
    PaddedNameText(text, name);
    NameStepOutcome(map[uid := NameStep], table, uid, chat, text, false);
  }

  lemma WalkthroughUnrecognizedReply(uid: int, chat: int, table: Table, text: string)
    requires text == "nope"
    ensures OnText(map[uid := ConfirmStep("Alice")], table, TextMessage(Some(uid), Some(chat), text), false)
            == TextOutcome(map[uid := ConfirmStep("Alice")], table, Some(AskYesOrNo))
  {
    UnrecognizedReplyText(text);
  }

  lemma WalkthroughNo(uid: int, chat: int, table: Table, text: string)
    requires text == "no"
    ensures OnText(map[uid := ConfirmStep("Alice")], table, TextMessage(Some(uid), Some(chat), text), false)
            == TextOutcome(map[uid := NameStep], table, Some(AskDifferentName))
  {
    NoReplyText(text);
  }

  lemma WalkthroughNewName(uid: int, chat: int, table: Table, text: string)
    requires text == "Bob"
    ensures OnText(map[uid := NameStep], table, TextMessage(Some(uid), Some(chat), text), false)
            == TextOutcome(map[uid := ConfirmStep("Bob")], table, Some(AskConfirmation("Bob")))
  {
    PlainNameText(text);
    NameStepOutcome(map[uid := NameStep], table, uid, chat, text, false);
  }

  lemma WalkthroughYes(uid: int, chat: int, table: Table, text: string)
    requires text == "YES" && !HasTelegramUser(table.rows, uid)
    ensures OnText(map[uid := ConfirmStep("Bob")], table, TextMessage(Some(uid), Some(chat), text), false)
            == TextOutcome(map[], Table(table.rows + [Player(table.nextId, "Bob", uid, chat)], table.nextId + 1),
                           Some(Welcome("Bob")))
  {
    UpperCaseYesText(text);
    assert map[uid := ConfirmStep("Bob")] - {uid} == map[];
  }

  /** The shared map of active registrations and the two handlers that update it. */
  class RegistrationConversation {
    var activeRegistrations: Registrations

    /** Every candidate name waiting for confirmation is valid and trimmed. */
    predicate Valid()
      reads this
    {
      CandidatesValid(activeRegistrations)
    }

    constructor ()
      ensures activeRegistrations == map[] && Valid()
    {
      activeRegistrations := map[];
    }

    /** The `/register` command handler. */
    method Register(from: Option<int>) returns (reply: Reply)
      requires Valid()
      modifies this
      ensures activeRegistrations == OnRegister(old(activeRegistrations), from)
      ensures Valid()
      ensures reply == if from.None? then CannotIdentifyUser else AskForName
    {
      if from.None? {
        return CannotIdentifyUser;
      }
      activeRegistrations := activeRegistrations[from.value := NameStep];
      reply := AskForName;
    }

    /** The `message:text` handler: one step of the sender's registration, with at most one `createPlayer` call. */
    method HandleText(msg: TextMessage, repo: PlayerRepository, unavailable: bool) returns (reply: Option<Reply>)
      requires Valid() && repo.Valid()
      modifies this, repo
      ensures var o := OnText(old(activeRegistrations), old(repo.table), msg, unavailable);
        activeRegistrations == o.regs && repo.table == o.table && reply == o.reply
      ensures Valid() && repo.Valid()
    {
      OnTextKeepsCandidatesValid(activeRegistrations, repo.table, msg, unavailable);
      if msg.from.None? || msg.chat.None? {
        return None;
      }
      var uid := msg.from.value;
      if uid !in activeRegistrations {
        return None;
      }
      var state := activeRegistrations[uid];
      if state.NameStep? {
        var name := Trim(msg.text);
        var length := Utf16Length(name);
        if length < MinNameLength || length > MaxNameLength {
          return Some(NameLengthRetry);
        }
        activeRegistrations := activeRegistrations[uid := ConfirmStep(name)];
        reply := Some(AskConfirmation(name));
      } else {
        var response := ToLower(msg.text);
        if response == "yes" || response == "y" {
          var result := repo.CreatePlayer(CreatePlayerData(state.name, uid, msg.chat.value), unavailable);
          if result.Created? {
            activeRegistrations := activeRegistrations - {uid};
            reply := Some(Welcome(result.player.name));
          } else {
            reply := Some(CreationFailed);
          }
        } else if response == "no" || response == "n" {
          activeRegistrations := activeRegistrations[uid := NameStep];
          reply := Some(AskDifferentName);
        } else {
          reply := Some(AskYesOrNo);
        }
      }
    }
  }
}
