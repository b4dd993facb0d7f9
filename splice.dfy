/**
 * Splicing a chosen suggestion back into the input. Mentions and emoji
 * replace the token at the very end of the text (the regexes are anchored
 * with `$`); a command replaces the whole input.
 */
module Splice {
  import opened Strings

  /**
   * `input.replace(/@\w*$/, "@" + username + " ")`: a trailing `@` and the word
   * characters after it become `"@username "`; without one the input stays.
   */
  function TagUser(input: string, username: string): (r: string)
    ensures forall i :: 0 <= i < |input| && input[i] == '@' && AllIn(input[i + 1..], Word) ==>
      r == input[..i] + "@" + username + " "
    ensures (forall i :: 0 <= i < |input| && input[i] == '@' ==> !AllIn(input[i + 1..], Word)) ==> r == input
  {
    match TrailingToken(input, '@', Word)
    case Some(i) => input[..i] + "@" + username + " "
    case None => input
  }

  /**
   * `input.replace(/:[a-z_]*$/, '') + glyph`: a trailing `:` and the shortcode
   * characters after it are dropped; the glyph is appended either way.
   */
  function InsertEmoji(input: string, glyph: string): (r: string)
    ensures forall i :: 0 <= i < |input| && input[i] == ':' && AllIn(input[i + 1..], ShortcodeName) ==>
      r == input[..i] + glyph
    ensures (forall i :: 0 <= i < |input| && input[i] == ':' ==> !AllIn(input[i + 1..], ShortcodeName)) ==> r == input + glyph
  {
    match TrailingToken(input, ':', ShortcodeName)
    case Some(i) => input[..i] + glyph
    case None => input + glyph
  }

  /** `command + ' '`: the chosen command, ready for its argument. */
  function InsertCommand(command: string): (r: string)
    ensures |r| == |command| + 1 && command <= r && r[|command|] == ' '
  {
    command + " "
  }

  /** Tagging keeps everything before the replaced token and always ends the text with `"@username "`, or changes nothing. */
  lemma TagUserKeepsPrefix(input: string, username: string)
    ensures var r := TagUser(input, username);
      r == input || exists i :: 0 <= i < |input| && input[i] == '@' && r == input[..i] + "@" + username + " "
  {
    match TrailingToken(input, '@', Word)
    case Some(i) =>
    case None =>
  }

  /** Choosing an emoji keeps everything before the replaced shortcode and always ends the text with the glyph. */
  lemma InsertEmojiKeepsPrefix(input: string, glyph: string)
    ensures var r := InsertEmoji(input, glyph);
      r == input + glyph || exists i :: 0 <= i < |input| && input[i] == ':' && r == input[..i] + glyph
  {
    match TrailingToken(input, ':', ShortcodeName)
    case Some(i) =>
    case None =>
  }

  /** A partly typed shortcode at the end is replaced: `"nice :fi"` becomes `"nice "` and the glyph. */
  lemma InsertEmojiReplacesPartialShortcode(glyph: string)
    ensures InsertEmoji("nice :fi", glyph) == "nice " + glyph
  {
    var s := "nice :fi";
    assert s[5] == ':' && AllIn(s[6..], ShortcodeName);
    assert s[..5] == "nice ";
  }

  /**
   * A mention followed by more text is not at the end: when the last word is
   * preceded by anything but `@`, tagging changes nothing, whatever mentions
   * come earlier.
   */
  lemma TagUserNeedsTrailingMention(rest: string, c: char, word: string, username: string)
    requires AllIn(word, Word) && !IsWordChar(c) && c != '@'
    ensures TagUser(rest + [c] + word, username) == rest + [c] + word
  {
    NoTrailingToken(rest, c, word, '@', Word);
  }

  /** The input `"hi @al there"` is left unchanged by tagging. */
  lemma MidTextMentionExample()
    ensures TagUser("hi @al there", "alice") == "hi @al there"
  {
    assert "hi @al there" == "hi @al" + [' '] + "there";
    assert AllIn("there", Word);
    TagUserNeedsTrailingMention("hi @al", ' ', "there", "alice");
  }

  /** At the end of the text the mention is completed: `"hi @al"` becomes `"hi @alice "`. */
  lemma TagUserCompletesTrailingMention()
    ensures TagUser("hi @al", "alice") == "hi @alice "
  {
    var s := "hi @al";
    assert s[3] == '@' && AllIn(s[4..], Word);
    assert s[..3] + "@" + "alice" + " " == "hi @alice ";
  }
}
