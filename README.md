# Chat input augmentation — a Dafny model

This project models the chat input of the Stonks dashboard (`components/Chat.js`). The input watches the text as it is typed for three triggers:

- an `@` for a user mention;
- a `:` for an emoji shortcode;
- a leading `/` for a slash command.

Each trigger opens its own suggestion list. A chosen suggestion is spliced back into the text. The arrow keys move a highlight around the emoji grid. Sending the input either sets the chat title or description (the `/title ` and `/description ` directives) or posts the message, after rewriting its mentions and shortcodes.

The model has one module per concern:

- `EditDistance`:
  - `Dist`, the recursive definition of edit distance;
  - `Levenshtein`, the method that fills the `(|a|+1) x (|b|+1)` table.
- `Ranker`:
  - the stable insertion sort of roster positions by distance;
  - `GetClosestMatches`, the three nearest usernames.
- `Strings`:
  - the character classes (`\w`, `[a-z_]`, ECMAScript whitespace);
  - `trim`;
  - the `split` pieces;
  - the first-occurrence `replace`;
  - the end-anchored regex match.
- `Rewrite`: the two global substitutions applied to a sent message, `@word` to `word` and `:name:` to its glyph.
- `Splice`: the three ways a chosen suggestion enters the text.
- `Navigation`: the modular index stepping of the emoji grid, which shows at most 40 entries.
- `ChatInput`:
  - the command table;
  - the send decision;
  - `class Chat`, whose fields are the component's state and whose methods are its event handlers.

The model follows the code in these respects:

- **Independent flags.** The three "show" flags are independent. `"/ban @al :"` opens all three lists.
- **Mention query.** The query is what follows the last `@`, cut at the first space. No cursor position is involved.
- **End-anchored splices.** A mention or shortcode is replaced only when it ends the text. `"hi @al there"` is left unchanged by tagging (`Splice.MidTextMentionExample`).
- **Unfiltered lists.** Neither the emoji list nor the command list is filtered by what was typed.
- **Enter.** With the grid open, the key-down handler commits the highlighted emoji and calls `e.preventDefault()` (components/Chat.js:128). That suppresses the key-press event, so nothing is sent. With the grid closed, the key-down handler does nothing and the key-press handler at line 166 sends. `ChatInput.Chat.HandleEnter` models both cases.
- **Highlight reset.** The effect that resets the highlight runs whenever `showEmojiList` becomes true. Only `handleInputChange` can make it true, so the reset is part of that method.
- **Stable sort.** The ranking sort is the stable `Array.prototype.sort` required by ECMA-262 (10th edition, section 22.1.3.27). Equal distances keep roster order.
- **Emoji catalog.** The catalog (`./emojiList`) is a constructor parameter. The roster (`users`, a prop) is a parameter of `HandleInputChange`.

## Model

| member | source | states |
|---|---|---|
| EditDistance.Min3 | components/Chat.js:17-21 | the result is one of the three arguments and no larger than any of them |
| EditDistance.Indicator | components/Chat.js:16 | the substitution cost: 0 when the two characters are equal, 1 otherwise |
| EditDistance.DistStep | components/Chat.js:17-21 | the distance of two prefixes satisfies the table's recurrence (left + 1, up + 1, diagonal + indicator) |
| EditDistance.Levenshtein | components/Chat.js:5-25 | the last cell of the filled table is the edit distance `Dist(a, b)` |
| EditDistance.Min | components/Chat.js:35 | the length `.slice(0, k)` keeps: one of the two arguments and no larger than either |
| EditDistance.FillRow | components/Chat.js:15-22 | given row `i - 1` of the table, the inner loop leaves row `i` holding the distances of `a[..i]` to every prefix of `b`, and no other row changes |
| EditDistance.FillCell | components/Chat.js:16-21 | cell `[i][j]` becomes the distance of `a[..i]` and `b[..j]` from its left, upper and diagonal neighbours; every other cell is unchanged |
| EditDistance.DistBaseCases | components/Chat.js:8-13 | against the empty string the distance is the other string's length |
| EditDistance.DistSymmetric | components/Chat.js:5-25 | the distance does not depend on the order of the arguments |
| EditDistance.DistZeroIff | components/Chat.js:5-25 | the distance is 0 exactly when the strings are equal |
| EditDistance.DistBounds | components/Chat.js:5-25 | the distance lies between the difference of the lengths and the larger length |
| Ranker.Insert | components/Chat.js:34 | one insertion step adds exactly the new position, keeping every old one and adding no other |
| Ranker.StableOrder | components/Chat.js:34 | the sorted order is a permutation of the positions `0..n-1` |
| Ranker.InsertNext | components/Chat.js:34 | adding position `n - 1` to a permutation of `0..n-2` gives a permutation of `0..n-1` |
| Ranker.Precedes | components/Chat.js:34 | the comparator `a.distance - b.distance` with the stable sort's tie-break: a smaller key, or an equal key and an earlier roster position |
| Ranker.ConsRanked | components/Chat.js:34 | putting in front a position that precedes all the others keeps the order sorted and stable |
| Ranker.InsertInFront | components/Chat.js:34 | a position whose key is smaller than the first key goes in front and the order stays sorted and stable |
| Ranker.InsertBehind | components/Chat.js:34 | when the first position keeps its place, the order stays sorted and stable |
| Ranker.InsertRanked | components/Chat.js:34 | inserting a later roster position into a sorted, stable order keeps it sorted and stable; ties keep roster order |
| Ranker.StableOrderRanked | components/Chat.js:34 | the insertion sort yields positions in nondecreasing key order, ties in increasing position |
| Ranker.RankedMeans | components/Chat.js:34 | a ranked order has nondecreasing keys, and equal keys come in increasing position |
| Ranker.Distances | components/Chat.js:30-33 | one score per roster entry |
| Ranker.RankedIndices | components/Chat.js:29-34 | the ranking lists one position per roster entry, each a valid position |
| Ranker.Usernames | components/Chat.js:36 | each output entry is the username at the corresponding position |
| Ranker.FullRanking | components/Chat.js:29-36 | the ranked usernames of the whole roster, one per entry |
| Ranker.GetClosestMatches | components/Chat.js:27-37 | empty for an empty query; otherwise exactly `min(3, |users|)` entries, each a roster username |
| Ranker.ClosestMatchesArePrefix | components/Chat.js:34-35 | the matches are a prefix of the full stable ranking |
| Ranker.RankedIndicesSpec | components/Chat.js:29-34 | the ranking is sorted by distance, ties in roster order, and contains every roster position |
| Ranker.ClosestMatchesOrdered | components/Chat.js:29-36 | the matches come in nondecreasing distance to the query |
| Ranker.ClosestMatchesBeatTheRest | components/Chat.js:34-35 | a roster entry that was left out is no closer than any match, and comes later in the roster than a match it ties with |
| Strings.IsWordChar | components/Chat.js:66 | the `\w` class of the mention regexes: ASCII letters, digits and `_` |
| Strings.IsShortcodeChar | components/Chat.js:107 | the `[a-z_]` class of the shortcode regexes: lower-case ASCII letters and `_` |
| Strings.IsSpace | components/Chat.js:58-63 | what `trim` removes: the ECMAScript WhiteSpace and LineTerminator code points |
| Strings.RunLength | components/Chat.js:66 | the longest prefix whose characters are all in the class |
| Strings.TrailRunLength | components/Chat.js:102 | the longest suffix whose characters are all in the class |
| Strings.TrailingToken | components/Chat.js:102 | the sigil position where `sigil` followed by class characters ends the text, or none when no such sigil exists |
| Strings.RunLengthOfToken | components/Chat.js:66 | a class run followed by a non-class character has exactly the run's length |
| Strings.TrailRunLengthOfToken | components/Chat.js:102 | a class run preceded by a non-class character is exactly the trailing run |
| Strings.NoTrailingToken | components/Chat.js:102 | a final word preceded by anything but the sigil is no trailing token |
| Strings.TrimStart | components/Chat.js:60 | a suffix of the input, with only whitespace removed, that starts with a non-space |
| Strings.TrimEnd | components/Chat.js:60 | a prefix of the input, with only whitespace removed, that ends with a non-space |
| Strings.TrimEndKeepsStart | components/Chat.js:60 | trimming the end of a string that starts with a non-space never empties it |
| Strings.Trim | components/Chat.js:58 | an infix of the input with whitespace only around it, empty exactly when the input is all whitespace, with non-space ends otherwise |
| Strings.TrimIdempotent | components/Chat.js:60 | trimming twice is trimming once |
| Strings.AfterLast | components/Chat.js:81 | the piece after the last occurrence of the separator, or the whole string when it is absent |
| Strings.AfterLastOf | components/Chat.js:81 | the piece after a separator that does not recur later is everything after it |
| Strings.BeforeFirst | components/Chat.js:81 | the prefix before the first occurrence of the separator, or the whole string |
| Strings.BeforeFirstOf | components/Chat.js:81 | the piece before the first separator is exactly the separator-free text before it |
| Strings.IndexOf | components/Chat.js:60 | the first position where the pattern occurs, or none when it never occurs |
| Strings.ReplaceFirst | components/Chat.js:60 | a string in which the pattern does not occur is returned unchanged; in a string that starts with the pattern, that leading occurrence is replaced and the rest is kept |
| Rewrite.FindEmoji | components/Chat.js:67 | the first catalog entry with that name, or none when no entry has it |
| Rewrite.StripMentions | components/Chat.js:66 | the scan never lengthens the text |
| Rewrite.StripMentionsDropsSigils | components/Chat.js:66 | the scan drops exactly those `@` that are followed by a word character and keeps everything else |
| Rewrite.DropSigils | components/Chat.js:66 | the character-wise reading of the mention rewrite: every `@` directly followed by a word character is dropped, everything else is kept |
| Rewrite.DropSigilsWord | components/Chat.js:66 | a word run passes through the mention rewrite unchanged |
| Rewrite.DropSigilsIdentity | components/Chat.js:66 | text without `@` passes through the character-wise reading unchanged |
| Rewrite.NoSigilUnchanged | components/Chat.js:66 | text without `@` is not changed by the mention rewrite |
| Rewrite.ReplaceShortcodes | components/Chat.js:66-69 | text without `:` is not changed by the shortcode rewrite |
| Rewrite.ShortcodeAt | components/Chat.js:66 | the test whether `/:([a-z_]+):/` matches at the start of the text: a `:`, a non-empty run of `[a-z_]`, then a `:` |
| Rewrite.KnownShortcode | components/Chat.js:67-68 | a `:name:` found in the catalog becomes that entry's glyph, and the scan resumes after it |
| Rewrite.UnknownShortcode | components/Chat.js:68 | a `:name:` not in the catalog is kept verbatim, and the scan resumes after it |
| Rewrite.ShortcodeSplit | components/Chat.js:66 | `:name:` is recognised as a shortcode spanning exactly the name and both colons |
| Rewrite.PlainStep | components/Chat.js:66 | a character other than `:` is copied and the scan goes on after it |
| Rewrite.StrayColon | components/Chat.js:66-69 | a `:` that starts no shortcode (no name after it, or a name not closed by a colon) is copied and the scan resumes right after it |
| Rewrite.StrayColonAtEnd | components/Chat.js:66-69 | a `:` followed only by name characters up to the end of the text is kept verbatim |
| Rewrite.StrayColonThenShortcode | components/Chat.js:66-69 | a colon within ordinary text is kept, and a known shortcode after it is still replaced |
| Rewrite.StrayColonBeforeChar | components/Chat.js:66-69 | a `:` followed by a character that is neither `:` nor in `[a-z_]` is copied with that character, and the scan goes on after it |
| Rewrite.KnownShortcodeAfterText | components/Chat.js:66-69 | colon-free text followed by a known shortcode is kept, and the shortcode becomes the glyph |
| Rewrite.OverlappingShortcodes | components/Chat.js:66-69 | in `:x:y:` with `x` unknown the scan takes `:x:`, so `y` is never matched and the text stays verbatim |
| Rewrite.StrayColonExample | components/Chat.js:66-69 | for any catalog whose `fire` entry has a glyph, `"12:30 :fire:"` keeps the time's colon and replaces `:fire:` with that glyph |
| Rewrite.OverlappingShortcodeExample | components/Chat.js:66-69 | for any catalog without an `a` entry, `":a:fire:"` stays verbatim: the scan takes `:a:` and resumes after it |
| Rewrite.ColonFreePrefix | components/Chat.js:66-69 | text before the first colon is copied unchanged |
| Rewrite.EmptyCatalogUnchanged | components/Chat.js:66-69 | with an empty catalog no shortcode is replaced |
| Rewrite.ProcessMessage | components/Chat.js:66-69 | a message with neither `@` nor `:` is posted exactly as typed |
| Rewrite.TrailingShortcodeMessage | components/Chat.js:66-69 | a message `prefix + ":name:"` whose prefix holds neither `@` nor `:` ends in the glyph when the name is known and keeps the shortcode verbatim otherwise |
| Rewrite.ShortcodeTextHasNoSigil | components/Chat.js:66 | appending a shortcode to `@`-free text introduces no `@` |
| Rewrite.KnownShortcodeExample | components/Chat.js:66-69 | `"great game :fire:"` is posted with the fire glyph in place of the shortcode |
| Rewrite.UnknownShortcodeExample | components/Chat.js:66-69 | `"see :nope:"` is posted verbatim when the catalog has no `nope` |
| Splice.TagUser | components/Chat.js:102 | a trailing `@` followed only by word characters becomes `"@" + username + " "`; without one the input is unchanged |
| Splice.InsertEmoji | components/Chat.js:107 | a trailing `:` followed only by `[a-z_]` characters is dropped and the glyph is appended; otherwise the glyph is simply appended |
| Splice.InsertCommand | components/Chat.js:114 | the result is the command followed by one space |
| Splice.TagUserKeepsPrefix | components/Chat.js:102 | tagging either changes nothing or keeps the text before some `@` and ends it with `"@" + username + " "` |
| Splice.InsertEmojiKeepsPrefix | components/Chat.js:107 | choosing an emoji keeps the text before the replaced shortcode and always ends the text with the glyph |
| Splice.InsertEmojiReplacesPartialShortcode | components/Chat.js:107 | `"nice :fi"` becomes `"nice "` followed by the glyph |
| Splice.TagUserNeedsTrailingMention | components/Chat.js:102 | when the last word is not preceded by `@`, tagging changes nothing, whatever mentions come earlier |
| Splice.MidTextMentionExample | components/Chat.js:102 | `"hi @al there"` is left unchanged by tagging |
| Splice.TagUserCompletesTrailingMention | components/Chat.js:102 | `"hi @al"` becomes `"hi @alice "` |
| Navigation.GridSize | components/Chat.js:121 | the grid holds `min(40, |catalog|)` entries |
| Navigation.NextIndex | components/Chat.js:121 | ArrowRight moves to the next entry and wraps from the last to the first, staying in the grid |
| Navigation.PrevIndex | components/Chat.js:124 | ArrowLeft moves to the previous entry and wraps from the first to the last, staying in the grid |
| Navigation.StepsAreInverse | components/Chat.js:121-124 | ArrowLeft undoes ArrowRight and vice versa |
| Navigation.RepeatNext | components/Chat.js:121 | any number of ArrowRight presses keeps the index in the grid |
| Navigation.RepeatNextAdvances | components/Chat.js:121 | any number `k` of ArrowRight presses moves the index from `i` to `(i + k) mod n` |
| Navigation.ModSucc | components/Chat.js:121 | proof step of `Navigation.RepeatNextAdvances`: stepping after reducing modulo `n` is the same as reducing after stepping |
| Navigation.FullCycle | components/Chat.js:121 | `n` presses of ArrowRight return the highlight to where it started |
| Navigation.WrapAroundExample | components/Chat.js:121-124 | on a grid of three, ArrowRight goes from 2 to 0 and ArrowLeft from 0 to 2 |
| ChatInput.CommandTable | components/Chat.js:39-44 | the table has four slash commands; choosing `/title` (entry 2) or `/description` (entry 3) yields exactly that directive's prefix, and no other entry yields either prefix |
| ChatInput.MentionQuery | components/Chat.js:81 | the query contains neither `@` nor a space, and is the text after the last `@`, up to a space or the end |
| ChatInput.MentionQueryOfLastMention | components/Chat.js:81 | when the last `@` is followed by a word free of `@` and spaces, then a space, and no `@` comes after, the query is that word |
| ChatInput.MentionQueryExample | components/Chat.js:81 | for `"/ban @al :"` the query is `"al"` |
| ChatInput.ClassifySend | components/Chat.js:57-69 | the input is ignored exactly when it is all whitespace |
| ChatInput.DirectiveArgument | components/Chat.js:60 | removing the directive prefix and trimming gives the trimmed rest of the line |
| ChatInput.TitleDirective | components/Chat.js:59-61 | an input starting with `"/title "` sets the title to the trimmed rest |
| ChatInput.DescriptionDirective | components/Chat.js:62-64 | an input starting with `"/description "` sets the description to the trimmed rest |
| ChatInput.PostedMessage | components/Chat.js:65-70 | any other non-blank input is posted with mentions and shortcodes rewritten |
| ChatInput.BlankTitleDirective | components/Chat.js:58-61 | `"/title "` followed only by blanks sets the title to the empty string |
| ChatInput.OtherCommandPosted | components/Chat.js:65-70 | a chosen command whose second character is neither `t` nor `d` (so `/mute` and `/ban`) is posted like any message |
| ChatInput.TitleCommand | components/Chat.js:59-61 | sending after choosing `/title` sets the title to what was typed after it, trimmed |
| ChatInput.DescriptionCommand | components/Chat.js:62-64 | sending after choosing `/description` sets the description to what was typed after it, trimmed |
| ChatInput.PlainCommands | components/Chat.js:40-41 | `/mute` and `/ban` have no effect of their own: sending them posts a message |
| ChatInput.Chat.constructor | components/Chat.js:47-55 | the initial state: no messages, empty input, all lists hidden, no matches, title `"Chat"`, empty description, highlight 0 |
| ChatInput.Chat.HandleSend | components/Chat.js:57-74 | blank input changes nothing; otherwise the input is cleared and exactly one of title, description or log changes, the log by appending exactly one rewritten message |
| ChatInput.Chat.ApplySend | components/Chat.js:58-73 | the state update for each send decision, with everything else unchanged |
| ChatInput.Chat.HandleInputChange | components/Chat.js:76-99 | the input becomes the value; each flag holds exactly when its trigger occurs; the matches are recomputed from the mention query when there is an `@`; the highlight resets when the emoji list opens (the effect at lines 133-137) |
| ChatInput.Chat.HandleTagUser | components/Chat.js:101-104 | the input is the tagged text and the user list is hidden |
| ChatInput.Chat.HandleSelectEmoji | components/Chat.js:106-111 | the input ends in the glyph in place of the trailing shortcode, the grid is hidden and the highlight is 0 |
| ChatInput.Chat.HandleSelectCommand | components/Chat.js:113-116 | the input is the command and a space, and the command list is hidden |
| ChatInput.Chat.HandleKeyDown | components/Chat.js:118-131 | with the grid closed, or for other keys, nothing changes; the arrows step the highlight with wrap-around and keep it in the grid; Enter commits the highlighted emoji |
| ChatInput.Chat.HandleEnter | components/Chat.js:165-166 | Enter with the grid open commits the emoji and sends nothing, because the key-down's `preventDefault` at line 128 suppresses the key press; with the grid closed it sends |

## Left out

- Rendering is not modelled (components/Chat.js:139-163 and 167-206). This covers the JSX, the `@yourusername` highlight (line 147), the twemoji image URL built from `codePointAt` (line 151) and the CSS classes. None of it changes state. The handler wiring is modelled: each handler's method is called for its event, and `HandleEnter` stands for lines 164-166.
- React's asynchronous state batching is not modelled. Each handler is one atomic sequential update.
- The `e.preventDefault()` calls for the arrow keys (lines 122 and 125) are not modelled. They only keep the text caret from moving. The one at line 128 is modelled: it is why `HandleEnter` does not send with the grid open.
- The contents of `./emojiList` are not part of this model. The catalog is an abstract constructor parameter.
- ChatInput.Chat.constructor: requires a non-empty catalog. With an empty one the source computes `% 0` (NaN) on an arrow key and reads `emojiList[0].char` of `undefined` on Enter. Both are JavaScript failures the model does not reproduce.
- JavaScript strings are sequences of UTF-16 code units. The model's strings are sequences of Unicode scalar values. Distances, and so the ranking, differ from the source on text outside the Basic Multilingual Plane: there one character is two code units. `trim`, the splits and the regex scans do not differ, because every character they test for lies inside the Basic Multilingual Plane.
- Splice.TagUser: does not model the `$` patterns (`$&`, `$1`, …) that `String.prototype.replace` would expand inside a username used as the replacement text.
- `users` is a React prop. The model takes it as a parameter of `HandleInputChange`, the only handler that reads it.
- components/DataTable.js and pages/index.js are not part of this model. They are network calls and table-library configuration.
