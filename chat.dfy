/**
 * The chat input component: its state, and one method per event handler.
 * Each handler runs to completion as one sequential update of the fields.
 * The three "show" flags are independent booleans: typing `/ban @al :` opens
 * all three lists at once.
 */
module ChatInput {
  import opened Strings
  import opened Ranker
  import opened Rewrite
  import opened Splice
  import opened Navigation

  /** A slash command offered by the command list. */
  datatype Command = Command(command: string, description: string)

  /** The command list; only `/title` and `/description` have an effect when sent. */
  const COMMANDS: seq<Command> := [
    Command("/mute", "Mute a user"),
    Command("/ban", "Ban a user"),
    Command("/title", "Set a title for the current stream"),
    Command("/description", "Set a description for the current stream")
  ]

  const TITLE_PREFIX := "/title "
  const DESCRIPTION_PREFIX := "/description "

  /**
   * The command table as the send handler sees it: four slash commands, of
   * which choosing `/title` or `/description` yields exactly a directive
   * prefix, and choosing any other yields neither.
   */
  lemma CommandTable()
    ensures |COMMANDS| == 4
    ensures forall i :: 0 <= i < |COMMANDS| ==> "/" <= COMMANDS[i].command
    ensures forall i :: 0 <= i < |COMMANDS| ==> (InsertCommand(COMMANDS[i].command) == TITLE_PREFIX <==> i == 2)
    ensures forall i :: 0 <= i < |COMMANDS| ==> (InsertCommand(COMMANDS[i].command) == DESCRIPTION_PREFIX <==> i == 3)
  {
    assert InsertCommand(COMMANDS[2].command) == TITLE_PREFIX;
    assert InsertCommand(COMMANDS[3].command) == DESCRIPTION_PREFIX;
    assert InsertCommand(COMMANDS[0].command)[1] == 'm';
    assert InsertCommand(COMMANDS[1].command)[1] == 'b';
  }

  /** The keys `handleKeyDown` distinguishes. */
  datatype Key = ArrowRight | ArrowLeft | Enter | OtherKey

  /**
   * `value.split('@').pop().split(' ')[0]`: what follows the last `@`, up to
   * the first space. It holds neither an `@` nor a space.
   */
  function MentionQuery(value: string): (r: string)
    ensures '@' !in r && ' ' !in r
    ensures '@' in value ==>
      exists i: nat :: LastAt(value, '@', i) && r <= value[i + 1..] && (i + 1 + |r| == |value| || value[i + 1 + |r|] == ' ')
  {
    var tail := AfterLast(value, '@');
    var r := BeforeFirst(tail, ' ');
    assert forall x :: x in r ==> x in tail;
    assert '@' in value ==> value[|value| - |tail|..] == tail;
    r
  }

  /** The query is the word after the last `@`, cut at the first space after it. */
  lemma MentionQueryOfLastMention(prefix: string, word: string, rest: string)
    requires '@' !in word && ' ' !in word && '@' !in rest
    ensures MentionQuery(prefix + "@" + word + " " + rest) == word
  {
    var tail := word + " " + rest;
    assert '@' !in tail;
    assert prefix + "@" + word + " " + rest == prefix + ['@'] + tail;
    AfterLastOf(prefix, '@', tail);
    assert tail == word + [' '] + rest;
    BeforeFirstOf(word, ' ', rest);
  }

  /** On `"/ban @al :"` the query is `"al"`. */
  lemma MentionQueryExample()
    ensures MentionQuery("/ban @al :") == "al"
  {
    assert "/ban @al :" == "/ban " + "@" + "al" + " " + ":";
    MentionQueryOfLastMention("/ban ", "al", ":");
  }

  /** What `handleSend` does with an input. */
  datatype SendAction = Ignore | SetTitle(title: string) | SetDescription(description: string) | Post(message: string)

  /**
   * The decision `handleSend` takes: nothing for a blank input, a `/title `
   * or `/description ` directive, or a message to post.
   */
  function ClassifySend(input: string, catalog: seq<Emoji>): (r: SendAction)
    ensures r.Ignore? <==> AllIn(input, Space)
  {
    if Trim(input) == [] then Ignore
    else if TITLE_PREFIX <= input then SetTitle(DirectiveArgument(input, TITLE_PREFIX))
    else if DESCRIPTION_PREFIX <= input then SetDescription(DirectiveArgument(input, DESCRIPTION_PREFIX))
    else Post(ProcessMessage(input, catalog))
  }

  /** `input.replace(prefix, '').trim()` for an input that starts with `prefix`: the rest of the line, trimmed. */
  function DirectiveArgument(input: string, prefix: string): (r: string)
    requires prefix <= input
    ensures r == Trim(input[|prefix|..])
  {
    var rest := ReplaceFirst(input, prefix, "");
    assert rest == "" + input[|prefix|..] == input[|prefix|..];
    Trim(rest)
  }

  /** A `/title ` directive sets the title to the rest of the line, trimmed. */
  lemma TitleDirective(input: string, catalog: seq<Emoji>)
    requires TITLE_PREFIX <= input
    ensures ClassifySend(input, catalog) == SetTitle(Trim(input[|TITLE_PREFIX|..]))
  {
    assert !IsSpace(input[0]);
  }

  /** A `/description ` directive sets the description to the rest of the line, trimmed. */
  lemma DescriptionDirective(input: string, catalog: seq<Emoji>)
    requires DESCRIPTION_PREFIX <= input
    ensures ClassifySend(input, catalog) == SetDescription(Trim(input[|DESCRIPTION_PREFIX|..]))
  {
    assert !IsSpace(input[0]);
    assert input[1] != TITLE_PREFIX[1];
  }

  /** Any other input that is not blank is posted, with mentions and shortcodes rewritten. */
  lemma PostedMessage(input: string, catalog: seq<Emoji>)
    requires !AllIn(input, Space) && !(TITLE_PREFIX <= input) && !(DESCRIPTION_PREFIX <= input)
    ensures ClassifySend(input, catalog) == Post(ProcessMessage(input, catalog))
  {
  }

  /** A directive with nothing after its prefix but blanks sets the title to the empty string. */
  lemma BlankTitleDirective(blanks: string, catalog: seq<Emoji>)
    requires AllIn(blanks, Space)
    ensures ClassifySend(TITLE_PREFIX + blanks, catalog) == SetTitle("")
  {
    var input := TITLE_PREFIX + blanks;
    assert TITLE_PREFIX <= input;
    TitleDirective(input, catalog);
    assert input[|TITLE_PREFIX|..] == blanks;
  }

  /** A command other than the two directives is posted like any message. */
  lemma OtherCommandPosted(command: string, rest: string, catalog: seq<Emoji>)
    requires |command| >= 2 && command[0] == '/' && command[1] != 't' && command[1] != 'd'
    ensures ClassifySend(InsertCommand(command) + rest, catalog).Post?
  {
    var input := InsertCommand(command) + rest;
    assert input[0] == '/' && !IsSpace(input[0]);
    assert input[1] == command[1];
    PostedMessage(input, catalog);
  }

  /** Sending straight after choosing `/title` from the command list sets the title to what was typed after it, trimmed. */
  lemma TitleCommand(rest: string, catalog: seq<Emoji>)
    ensures ClassifySend(InsertCommand(COMMANDS[2].command) + rest, catalog) == SetTitle(Trim(rest))
  {
    var input := TITLE_PREFIX + rest;
    assert InsertCommand(COMMANDS[2].command) == TITLE_PREFIX;
    assert input[|TITLE_PREFIX|..] == rest;
    TitleDirective(input, catalog);
  }

  /** Sending straight after choosing `/description` sets the description to what was typed after it, trimmed. */
  lemma DescriptionCommand(rest: string, catalog: seq<Emoji>)
    ensures ClassifySend(InsertCommand(COMMANDS[3].command) + rest, catalog) == SetDescription(Trim(rest))
  {
    var input := DESCRIPTION_PREFIX + rest;
    assert InsertCommand(COMMANDS[3].command) == DESCRIPTION_PREFIX;
    assert input[|DESCRIPTION_PREFIX|..] == rest;
    DescriptionDirective(input, catalog);
  }

  /** `/mute` and `/ban` have no handler: sending them posts an ordinary message. */
  lemma PlainCommands(rest: string, catalog: seq<Emoji>)
    ensures ClassifySend(InsertCommand(COMMANDS[0].command) + rest, catalog).Post?
    ensures ClassifySend(InsertCommand(COMMANDS[1].command) + rest, catalog).Post?
  {
    OtherCommandPosted(COMMANDS[0].command, rest, catalog);
    OtherCommandPosted(COMMANDS[1].command, rest, catalog);
  }

  class Chat {
    /** The emoji catalog (`./emojiList`). */
    const catalog: seq<Emoji>

    var messages: seq<string>
    var input: string
    var showUserList: bool
    var showEmojiList: bool
    var showCommandList: bool
    var userMatches: seq<string>
    var chatTitle: string
    var chatDescription: string
    var selectedEmojiIndex: nat

    /** The highlighted emoji is always one the grid shows. */
    ghost predicate Valid()
      reads this
    {
      selectedEmojiIndex < GridSize(|catalog|)
    }

    /** The initial state of the component. */
    constructor (catalog: seq<Emoji>)
      requires catalog != []
      ensures Valid() && this.catalog == catalog
      ensures messages == [] && input == [] && userMatches == []
      ensures !showUserList && !showEmojiList && !showCommandList
      ensures chatTitle == "Chat" && chatDescription == [] && selectedEmojiIndex == 0
    {
      this.catalog := catalog;
      messages := [];
      input := "";
      showUserList := false;
      showEmojiList := false;
      showCommandList := false;
      userMatches := [];
      chatTitle := "Chat";
      chatDescription := "";
      selectedEmojiIndex := 0;
    }

    /**
     * `handleSend`: a blank input changes nothing; otherwise a directive sets
     * the title or description, or the rewritten message is appended to the
     * log, and the input is cleared.
     */
    method HandleSend()
      requires Valid()
      modifies this`input, this`messages, this`chatTitle, this`chatDescription
      ensures Valid()
      ensures var action := ClassifySend(old(input), catalog);
        && (action.Ignore? ==> unchanged(this))
        && (!action.Ignore? ==> input == [])
        && messages == (if action.Post? then old(messages) + [action.message] else old(messages))
        && chatTitle == (if action.SetTitle? then action.title else old(chatTitle))
        && chatDescription == (if action.SetDescription? then action.description else old(chatDescription))
    {
      var action := ClassifySend(input, catalog);
      ApplySend(action);
    }

    /** The state update for one decision of `handleSend`. */
    method ApplySend(action: SendAction)
      requires Valid()
      modifies this`input, this`messages, this`chatTitle, this`chatDescription
      ensures Valid()
      ensures action.Ignore? ==> unchanged(this)
      ensures !action.Ignore? ==> input == []
      ensures messages == (if action.Post? then old(messages) + [action.message] else old(messages))
      ensures chatTitle == (if action.SetTitle? then action.title else old(chatTitle))
      ensures chatDescription == (if action.SetDescription? then action.description else old(chatDescription))
    {
      if action.SetTitle? {
        chatTitle := action.title;
        input := "";
      } else if action.SetDescription? {
        chatDescription := action.description;
        input := "";
      } else if action.Post? {
        messages := messages + [action.message];
        input := "";
      }
    }

    /**
     * `handleInputChange` followed by the reset effect: the input becomes
     * `value`; each list is shown exactly when its trigger occurs; the user
     * matches are recomputed from the current roster when there is an `@`;
     * the emoji highlight goes back to the first entry when the emoji list opens.
     */
    method HandleInputChange(value: string, users: seq<User>)
      requires Valid()
      modifies this`input, this`showUserList, this`userMatches, this`showEmojiList, this`showCommandList, this`selectedEmojiIndex
      ensures Valid()
      ensures input == value
      ensures showUserList == ('@' in value)
      ensures userMatches == if '@' in value then GetClosestMatches(MentionQuery(value), users) else old(userMatches)
      ensures showEmojiList == (':' in value)
      ensures showCommandList == ("/" <= value)
      ensures selectedEmojiIndex == if !old(showEmojiList) && ':' in value then 0 else old(selectedEmojiIndex)
    {
      var wasShowingEmoji := showEmojiList;
      input := value;

      if '@' in value {
        var searchText := MentionQuery(value);
        userMatches := GetClosestMatches(searchText, users);
        showUserList := true;
      } else {
        showUserList := false;
      }

      if ':' in value {
        showEmojiList := true;
      } else {
        showEmojiList := false;
      }

      if "/" <= value {
        showCommandList := true;
      } else {
        showCommandList := false;
      }

      if !wasShowingEmoji && showEmojiList {
        selectedEmojiIndex := 0;
      }
    }

    /** `handleTagUser`: completes the trailing mention and hides the user list. */
    method HandleTagUser(username: string)
      requires Valid()
      modifies this`input, this`showUserList
      ensures Valid()
      ensures input == TagUser(old(input), username) && !showUserList
    {
      input := TagUser(input, username);
      showUserList := false;
    }

    /** `handleSelectEmoji`: replaces the trailing shortcode with the glyph, hides the grid and resets the highlight. */
    method HandleSelectEmoji(emoji: Emoji)
      requires Valid()
      modifies this`input, this`showEmojiList, this`selectedEmojiIndex
      ensures Valid()
      ensures input == InsertEmoji(old(input), emoji.glyph) && !showEmojiList && selectedEmojiIndex == 0
    {
      var newInput := InsertEmoji(input, emoji.glyph);
      input := newInput;
      showEmojiList := false;
      selectedEmojiIndex := 0;
    }

    /** `handleSelectCommand`: the input becomes the command and a space; the command list is hidden. */
    method HandleSelectCommand(command: string)
      requires Valid()
      modifies this`input, this`showCommandList
      ensures Valid()
      ensures input == InsertCommand(command) && !showCommandList
    {
      input := InsertCommand(command);
      showCommandList := false;
    }

    /**
     * `handleKeyDown`: while the emoji grid is open the arrows move the
     * highlight around it and Enter commits the highlighted emoji; with the
     * grid closed, and for any other key, nothing changes.
     */
    method HandleKeyDown(key: Key)
      requires Valid()
      modifies this`input, this`showEmojiList, this`selectedEmojiIndex
      ensures Valid()
      ensures !old(showEmojiList) || key == OtherKey ==> unchanged(this)
      ensures old(showEmojiList) && key == ArrowRight ==>
        selectedEmojiIndex == NextIndex(old(selectedEmojiIndex), GridSize(|catalog|)) && input == old(input) && showEmojiList
      ensures old(showEmojiList) && key == ArrowLeft ==>
        selectedEmojiIndex == PrevIndex(old(selectedEmojiIndex), GridSize(|catalog|)) && input == old(input) && showEmojiList
      ensures old(showEmojiList) && key == Enter ==>
        input == InsertEmoji(old(input), catalog[old(selectedEmojiIndex)].glyph) && !showEmojiList && selectedEmojiIndex == 0
    {
      if showEmojiList {
        var n := GridSize(|catalog|);
        match key
        case ArrowRight =>
          selectedEmojiIndex := NextIndex(selectedEmojiIndex, n);
        case ArrowLeft =>
          selectedEmojiIndex := PrevIndex(selectedEmojiIndex, n);
        case Enter =>
          HandleSelectEmoji(catalog[selectedEmojiIndex]);
        case OtherKey =>
      }
    }

    /**
     * One press of Enter: the key-down handler runs first. With the grid
     * open it commits the emoji and calls `preventDefault`, which suppresses
     * the key press, so nothing is sent. With the grid closed the key press
     * follows and sends.
     */
    method HandleEnter()
      requires Valid()
      modifies this`input, this`showEmojiList, this`selectedEmojiIndex, this`messages, this`chatTitle, this`chatDescription
      ensures Valid()
      ensures old(showEmojiList) ==>
        && input == InsertEmoji(old(input), catalog[old(selectedEmojiIndex)].glyph)
        && !showEmojiList && selectedEmojiIndex == 0 && messages == old(messages)
        && chatTitle == old(chatTitle) && chatDescription == old(chatDescription)
      ensures !old(showEmojiList) && AllIn(old(input), Space) ==> unchanged(this)
      ensures !old(showEmojiList) ==> var action := ClassifySend(old(input), catalog);
        && (!action.Ignore? ==> input == [])
        && messages == (if action.Post? then old(messages) + [action.message] else old(messages))
        && chatTitle == (if action.SetTitle? then action.title else old(chatTitle))
        && chatDescription == (if action.SetDescription? then action.description else old(chatDescription))
        && !showEmojiList && selectedEmojiIndex == old(selectedEmojiIndex)
    {
      var wasShowingEmoji := showEmojiList;
      HandleKeyDown(Enter);
      if !wasShowingEmoji {
        HandleSend();
      }
    }
  }
}
