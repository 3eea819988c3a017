/**
 * Telegram bot commands (telegram/command.go): the active command list, the
 * reply a command builds, and the recognition of a command in a message text.
 * Lowercasing is ASCII only; a `char` stands for one byte of the Go string.
 */
module TelegramCommand {
  import opened Wrappers
  import opened Text

  datatype Chat = Chat(id: int)

  /** The parts of an incoming message the bot reads (sender and date are not modelled). */
  datatype Message = Message(messageId: int, chat: Chat, text: string)

  datatype Update = Update(updateId: int, message: Message)

  /** An outgoing message: the chat, the text and the message it replies to. */
  datatype SendMessage = SendMessage(chatId: int, text: string, replyToMsg: int)

  /** The Command interface has a single implementation, SubscribeCommand. */
  datatype Command = SubscribeCommand(commandString: string)
  {
    /** The command's name, as typed after the slash. */
    function Name(): string
    {
      commandString
    }

    /** The reply a command builds: same chat, echoed text, in reply to the incoming message. */
    function Handle(update: Update): (msg: SendMessage)
      ensures msg.chatId == update.message.chat.id
      ensures msg.text == update.message.text
      ensures msg.replyToMsg == update.message.messageId
    {
      SendMessage(update.message.chat.id, update.message.text, update.message.messageId)
    }
  }

  const ActiveCommands: seq<Command> := [SubscribeCommand("subscribe")]

  /** No active command has an empty name. */
  lemma ActiveCommandsNamed()
    ensures forall i :: 0 <= i < |ActiveCommands| ==> ActiveCommands[i].Name() != ""
  {
  }

  /** The word a text names, or None when it is not a command at all. */
  function Candidate(text: string): (word: Option<string>)
    ensures word.None? <==> |text| < 2 || text[0] != '/'
  {
    if |text| < 2 || text[..1] != "/" then None
    else Some(Split(ToLower(text[1..]), ' ')[0])
  }

  /**
   * The candidate is the lowercased text after the slash, up to but excluding
   * the first space.
   */
  lemma CandidateIsFirstWord(text: string)
    requires |text| >= 2 && text[0] == '/'
    ensures var w := Candidate(text).value; var rest := ToLower(text[1..]);
      && |w| <= |rest| && w == rest[..|w|] && ' ' !in w
      && (|w| < |rest| ==> rest[|w|] == ' ')
  {
    assert text[..1] == "/";
    SplitFirstPiece(ToLower(text[1..]), ' ');
  }

  /** Reference search: the first command of `commands` with the given name. */
  function FirstNamed(commands: seq<Command>, word: string): Option<Command>
  {
    if |commands| == 0 then None
    else if commands[0].Name() == word then Some(commands[0])
    else FirstNamed(commands[1..], word)
  }

  /** What IdentifyCommand returns for a text. */
  function Identified(text: string): Option<Command>
  {
    match Candidate(text)
    case None => None
    case Some(word) => FirstNamed(ActiveCommands, word)
  }

  /** Position `i` holds the first command of `commands` named `word`. */
  ghost predicate FirstWithName(commands: seq<Command>, word: string, i: int)
    requires 0 <= i < |commands|
  {
    commands[i].Name() == word && forall j :: 0 <= j < i ==> commands[j].Name() != word
  }

  /** The first command in `commands` whose name equals `word`, found by a linear scan. */
  method FindCommand(commands: seq<Command>, word: string) returns (r: Option<Command>)
    ensures r.Some? ==> r.value.Name() == word
    ensures r.Some? ==> exists i :: 0 <= i < |commands| && commands[i] == r.value && FirstWithName(commands, word, i)
    ensures r.None? <==> forall i :: 0 <= i < |commands| ==> commands[i].Name() != word
    ensures r == FirstNamed(commands, word)
  {
    var i := 0;
    while i < |commands|
      invariant 0 <= i <= |commands|
      invariant forall j :: 0 <= j < i ==> commands[j].Name() != word
      invariant FirstNamed(commands, word) == FirstNamed(commands[i..], word)
    {
      if commands[i].Name() == word {
        return Some(commands[i]);
      }
      assert commands[i..][1..] == commands[i + 1..];
      i := i + 1;
    }
    return None;
  }

  /** Recognises the command a message starts with; None when it names no active command. */
  method IdentifyCommand(update: Update) returns (r: Option<Command>)
    ensures r == Identified(update.message.text)
    ensures r.None? <==> (|update.message.text| < 2 || update.message.text[0] != '/' ||
      forall i :: 0 <= i < |ActiveCommands| ==> ActiveCommands[i].Name() != Candidate(update.message.text).value)
    ensures r.Some? ==> r.value in ActiveCommands && r.value.Name() == Candidate(update.message.text).value
  {
    var text := update.message.text;
    if |text| < 2 || text[..1] != "/" {
      return None;
    }
    text := text[1..];
    text := ToLower(text);
    var words := Split(text, ' ');
    var candidate := words[0];
    r := FindCommand(ActiveCommands, candidate);
  }

  /** Matching ignores case and everything after the first space. */
  lemma {:induction false} CandidateOfWordAndArgs(w: string, args: string)
    requires ' ' !in w
    ensures Candidate("/" + w + " " + args) == Some(ToLower(w))
    ensures |w| >= 1 ==> Candidate("/" + w) == Some(ToLower(w))
  {
    var text := "/" + w + " " + args;
    assert text[..1] == "/" && text[1..] == w + [' '] + args;
    ToLowerAppend(w, [' '] + args);
    ToLowerAppend([' '], args);
    assert ToLower(w + [' '] + args) == ToLower(w) + [' '] + ToLower(args);
    SplitAfterFirst(ToLower(w), ToLower(args), ' ');
    if |w| >= 1 {
      assert ("/" + w)[..1] == "/" && ("/" + w)[1..] == w;
      SplitWithoutSep(ToLower(w), ' ');
    }
  }

  /**
   * Matching ignores case and arguments: a word followed by arguments names
   * the same command as the lowercased word alone.
   */
  lemma CaseAndArgumentsIgnored(w: string, args: string)
    requires |w| >= 1 && ' ' !in w
    ensures Identified("/" + w + " " + args) == Identified("/" + ToLower(w))
    ensures Identified("/" + w + " " + args) == FirstNamed(ActiveCommands, ToLower(w))
  {
    CandidateOfWordAndArgs(w, args);
    ToLowerIdempotent(w);
    ToLowerKeepsSpaces(w);
    CandidateOfWordAndArgs(ToLower(w), "");
  }

  /** `/SUBSCRIBE now` names the same command as `/subscribe`: the subscribe command. */
  lemma SubscribeIgnoresCaseAndArguments()
    ensures Identified("/SUBSCRIBE now") == Identified("/subscribe") == Some(SubscribeCommand("subscribe"))
  {
    SubscribeSpelling();
    LowerSubscribe();
    CaseAndArgumentsIgnored("SUBSCRIBE", "now");
    assert FirstNamed(ActiveCommands, "subscribe") == Some(SubscribeCommand("subscribe"));
  }

  lemma SubscribeSpelling()
    ensures ' ' !in "SUBSCRIBE" && ' ' !in "subscribe"
    ensures "/SUBSCRIBE now" == "/" + "SUBSCRIBE" + " " + "now"
  {
  }

  lemma LowerSubscribe()
    ensures ToLower("SUBSCRIBE") == "subscribe" && ToLower("subscribe") == "subscribe"
  {
    var upper, lower := "SUBSCRIBE", "subscribe";
    assert forall i :: 0 <= i < |upper| ==> LowerChar(upper[i]) == lower[i];
    assert forall i :: 0 <= i < |lower| ==> LowerChar(lower[i]) == lower[i];
  }

  /** A slash followed directly by a space names the empty word, which no active command has. */
  lemma SlashSpaceIsNoCommand(args: string)
    ensures Candidate("/ " + args) == Some("")
    ensures Identified("/ " + args) == None
  {
    CandidateOfWordAndArgs("", args);
    assert "/" + "" + " " + args == "/ " + args;
  }
}
