/**
 * The text a sent message is rewritten with: `@name` loses its `@`, then
 * every `:name:` whose name is in the emoji catalog becomes that emoji's
 * glyph. Each global regex substitution is a left-to-right scan that never
 * revisits text a match consumed.
 */
module Rewrite {
  import opened Strings

  /** An entry of the emoji catalog: `{ name, char }`. */
  datatype Emoji = Emoji(name: string, glyph: string)

  /** `emojiList.find(e => e.name === name)`: the first catalog entry with that name. */
  function FindEmoji(catalog: seq<Emoji>, name: string): (r: Option<Emoji>)
    ensures r.Some? ==> exists i :: 0 <= i < |catalog| && catalog[i] == r.value && r.value.name == name
                                   && forall j :: 0 <= j < i ==> catalog[j].name != name
    ensures r.None? ==> forall e :: e in catalog ==> e.name != name
  {
    if catalog == [] then None
    else if catalog[0].name == name then Some(catalog[0])
    else
      var r := FindEmoji(catalog[1..], name);
      assert r.Some? ==> exists i :: 0 < i < |catalog| && catalog[i] == r.value && r.value.name == name
                                    && forall j :: 0 <= j < i ==> catalog[j].name != name by {
        if r.Some? {
          var i :| 0 <= i < |catalog[1..]| && catalog[1..][i] == r.value && r.value.name == name
                   && forall j :: 0 <= j < i ==> catalog[1..][j].name != name;
          assert catalog[i + 1] == r.value;
          assert forall j :: 1 <= j < i + 1 ==> catalog[j] == catalog[1..][j - 1];
        }
      }
      assert r.None? ==> forall e :: e in catalog ==> e.name != name by {
        assert forall e :: e in catalog && e != catalog[0] ==> e in catalog[1..];
      }
      r
  }

  /** `s.replace(/@(\w+)/g, '$1')`: each `@` and the word after it become just the word. */
  function StripMentions(s: string): (r: string)
    ensures |r| <= |s|
    decreases |s|
  {
    if s == [] then []
    else if s[0] == '@' && |s| > 1 && IsWordChar(s[1]) then
      var n := RunLength(s[1..], Word);
      s[1..1 + n] + StripMentions(s[1 + n..])
    else [s[0]] + StripMentions(s[1..])
  }

  /** The same rewrite read character by character: an `@` goes exactly when a word character follows it. */
  function DropSigils(s: string): (r: string)
  {
    if s == [] then []
    else (if s[0] == '@' && |s| > 1 && IsWordChar(s[1]) then [] else [s[0]]) + DropSigils(s[1..])
  }

  /** A word run has no `@` to drop. */
  lemma {:induction false} DropSigilsWord(w: string, t: string)
    requires AllIn(w, Word)
    ensures DropSigils(w + t) == w + DropSigils(t)
  {
    if w == [] {
      assert w + t == t;
    } else {
      var s := w + t;
      assert s[0] == w[0] && InClass(w[0], Word);
      assert s[1..] == w[1..] + t;
      assert DropSigils(s) == [w[0]] + DropSigils(w[1..] + t);
      DropSigilsWord(w[1..], t);
      assert w == [w[0]] + w[1..];
    }
  }

  /** The scan and the character-wise reading agree. */
  lemma {:induction false} StripMentionsDropsSigils(s: string)
    ensures StripMentions(s) == DropSigils(s)
    decreases |s|
  {
    if s == [] {
    } else if s[0] == '@' && |s| > 1 && IsWordChar(s[1]) {
      var n := RunLength(s[1..], Word);
      assert s[1..] == s[1..1 + n] + s[1 + n..];
      DropSigilsWord(s[1..1 + n], s[1 + n..]);
      StripMentionsDropsSigils(s[1 + n..]);
    } else {
      StripMentionsDropsSigils(s[1..]);
    }
  }

  /** Text without an `@` is left as it is. */
  lemma {:induction false} NoSigilUnchanged(s: string)
    requires '@' !in s
    ensures StripMentions(s) == s
  {
    StripMentionsDropsSigils(s);
    DropSigilsIdentity(s);
  }

  lemma {:induction false} DropSigilsIdentity(s: string)
    requires '@' !in s
    ensures DropSigils(s) == s
  {
    if s != [] {
      assert s == [s[0]] + s[1..];
      DropSigilsIdentity(s[1..]);
    }
  }

  /**
   * `s.replace(/:([a-z_]+):/g, ...)`: each `:name:` becomes the glyph of the
   * first catalog entry called `name`, or stays as it is when there is none;
   * either way the scan resumes after the closing colon.
   */
  function ReplaceShortcodes(s: string, catalog: seq<Emoji>): (r: string)
    ensures ':' !in s ==> r == s
    decreases |s|
  {
    if s == [] then []
    else if s[0] == ':' && ShortcodeAt(s) then
      var n := RunLength(s[1..], ShortcodeName);
      var glyph := match FindEmoji(catalog, s[1..1 + n])
                   case Some(e) => e.glyph
                   case None => s[..2 + n];
      glyph + ReplaceShortcodes(s[2 + n..], catalog)
    else
      assert ':' !in s ==> ':' !in s[1..];
      [s[0]] + ReplaceShortcodes(s[1..], catalog)
  }

  /** `s` starts with `:`, a nonempty run of `[a-z_]`, and a closing `:`. */
  predicate ShortcodeAt(s: string)
    requires s != [] && s[0] == ':'
  {
    var n := RunLength(s[1..], ShortcodeName);
    n > 0 && 1 + n < |s| && s[1 + n] == ':'
  }

  /** A known shortcode is replaced by its glyph. */
  lemma KnownShortcode(name: string, rest: string, catalog: seq<Emoji>, e: Emoji)
    requires name != [] && AllIn(name, ShortcodeName)
    requires FindEmoji(catalog, name) == Some(e)
    ensures ReplaceShortcodes(":" + name + ":" + rest, catalog) == e.glyph + ReplaceShortcodes(rest, catalog)
  {
    ShortcodeSplit(name, rest);
  }

  /** An unknown shortcode is kept verbatim, closing colon included. */
  lemma UnknownShortcode(name: string, rest: string, catalog: seq<Emoji>)
    requires name != [] && AllIn(name, ShortcodeName)
    requires FindEmoji(catalog, name).None?
    ensures ReplaceShortcodes(":" + name + ":" + rest, catalog) == ":" + name + ":" + ReplaceShortcodes(rest, catalog)
  {
    ShortcodeSplit(name, rest);
  }

  lemma ShortcodeSplit(name: string, rest: string)
    requires name != [] && AllIn(name, ShortcodeName)
    ensures var s := ":" + name + ":" + rest;
      && ShortcodeAt(s) && RunLength(s[1..], ShortcodeName) == |name|
      && s[1..1 + |name|] == name && s[..2 + |name|] == ":" + name + ":" && s[2 + |name|..] == rest
  {
    var s := ":" + name + ":" + rest;
    assert s[1..] == name + [':'] + rest;
    RunLengthOfToken(name, ':', rest, ShortcodeName);
  }

  /** A character other than `:` starts no shortcode and is copied. */
  lemma PlainStep(s: string, catalog: seq<Emoji>)
    requires s != [] && s[0] != ':'
    ensures ReplaceShortcodes(s, catalog) == [s[0]] + ReplaceShortcodes(s[1..], catalog)
  {
  }

  /**
   * A `:` that starts no shortcode (no name after it, or a name not closed by
   * a colon) is copied, and the scan resumes right after it.
   */
  lemma StrayColon(w: string, c: char, rest: string, catalog: seq<Emoji>)
    requires AllIn(w, ShortcodeName) && !IsShortcodeChar(c) && (w == [] || c != ':')
    ensures ReplaceShortcodes(":" + w + [c] + rest, catalog) == ":" + ReplaceShortcodes(w + [c] + rest, catalog)
  {
    var s := ":" + w + [c] + rest;
    assert s[1..] == w + [c] + rest;
    RunLengthOfToken(w, c, rest, ShortcodeName);
    assert !ShortcodeAt(s);
  }

  /** A `:` followed only by name characters up to the end of the text is kept, with those characters. */
  lemma StrayColonAtEnd(w: string, catalog: seq<Emoji>)
    requires AllIn(w, ShortcodeName)
    ensures ReplaceShortcodes(":" + w, catalog) == ":" + w
  {
    var s := ":" + w;
    assert s[1..] == w;
    assert RunLength(w, ShortcodeName) == |w|;
    assert !ShortcodeAt(s);
  }

  /**
   * A colon inside ordinary text, as in a clock time, is kept, and a known
   * shortcode after it is still replaced.
   */
  lemma StrayColonThenShortcode(a: string, d: char, b: string, name: string, catalog: seq<Emoji>, e: Emoji)
    requires ':' !in a && ':' !in b && d != ':' && !IsShortcodeChar(d)
    requires name != [] && AllIn(name, ShortcodeName) && FindEmoji(catalog, name) == Some(e)
    ensures ReplaceShortcodes(a + (":" + ([d] + (b + (":" + name + ":")))), catalog) == a + (":" + ([d] + (b + e.glyph)))
  {
    KnownShortcodeAfterText(b, name, catalog, e);
    StrayColonBeforeChar(d, b + (":" + name + ":"), catalog);
    ColonFreePrefix(a, ":" + ([d] + (b + (":" + name + ":"))), catalog);
  }

  /** A colon-free text followed by a known shortcode: the text is kept and the shortcode becomes the glyph. */
  lemma KnownShortcodeAfterText(b: string, name: string, catalog: seq<Emoji>, e: Emoji)
    requires ':' !in b && name != [] && AllIn(name, ShortcodeName) && FindEmoji(catalog, name) == Some(e)
    ensures ReplaceShortcodes(b + (":" + name + ":"), catalog) == b + e.glyph
  {
    // The trailing `+ ""` is the empty `rest` of `KnownShortcode`.
    var code := ":" + name + ":" + "";
    assert code == ":" + name + ":";
    KnownShortcode(name, "", catalog, e);
    ColonFreePrefix(b, code, catalog);
  }

  /** A `:` followed by a character that can start no shortcode name is copied together with that character. */
  lemma StrayColonBeforeChar(d: char, t: string, catalog: seq<Emoji>)
    requires d != ':' && !IsShortcodeChar(d)
    ensures ReplaceShortcodes(":" + ([d] + t), catalog) == ":" + ([d] + ReplaceShortcodes(t, catalog))
  {
    var tail := [d] + t;
    StrayColon([], d, t, catalog);
    assert ":" + [] + [d] + t == ":" + tail;
    assert [] + [d] + t == tail;
    PlainStep(tail, catalog);
    assert tail[1..] == t;
  }

  /** `"12:30 :fire:"`: the colon of the time is kept and the shortcode after it is still replaced. */
  lemma StrayColonExample(catalog: seq<Emoji>, e: Emoji)
    requires FindEmoji(catalog, "fire") == Some(e)
    ensures ReplaceShortcodes("12:30 :fire:", catalog) == "12:30 " + e.glyph
  {
    assert AllIn("fire", ShortcodeName);
    StrayColonThenShortcode("12", '3', "0 ", "fire", catalog, e);
    ClockText(e.glyph);
  }

  /** How `"12:30 :fire:"` splits around its colons. */
  lemma ClockText(g: string)
    ensures "12" + (":" + (['3'] + ("0 " + (":" + "fire" + ":")))) == "12:30 :fire:"
    ensures "12" + (":" + (['3'] + ("0 " + g))) == "12:30 " + g
  {
    assert ['3'] + ("0 " + g) == "30 " + g;
  }

  /** Two shortcodes sharing a colon: the scan takes the first, so when its name is unknown the text stays verbatim. */
  lemma OverlappingShortcodes(name: string, w: string, catalog: seq<Emoji>)
    requires name != [] && AllIn(name, ShortcodeName) && AllIn(w, ShortcodeName)
    requires FindEmoji(catalog, name).None?
    ensures ReplaceShortcodes(":" + name + ":" + (w + ":"), catalog) == ":" + name + ":" + (w + ":")
  {
    UnknownShortcode(name, w + ":", catalog);
    ShortcodeNameHasNoColon(w);
    ColonFreePrefix(w, ":", catalog);
    StrayColonAtEnd([], catalog);
    assert ":" + [] == ":";
  }

  /** How `":a:fire:"` splits around its colons. */
  lemma OverlapText()
    ensures ":" + "a" + ":" + ("fire" + ":") == ":a:fire:"
  {
  }

  lemma ShortcodeNameHasNoColon(w: string)
    requires AllIn(w, ShortcodeName)
    ensures ':' !in w
  {
  }

  /** `":a:fire:"` with `a` unknown: `:a:` is the shortcode the scan takes, so `fire` is never matched and the text stays verbatim. */
  lemma OverlappingShortcodeExample(catalog: seq<Emoji>)
    requires FindEmoji(catalog, "a").None?
    ensures ReplaceShortcodes(":a:fire:", catalog) == ":a:fire:"
  {
    assert AllIn("a", ShortcodeName) && AllIn("fire", ShortcodeName);
    OverlappingShortcodes("a", "fire", catalog);
    OverlapText();
  }

  /** Text before the first colon passes through untouched. */
  lemma {:induction false} ColonFreePrefix(p: string, t: string, catalog: seq<Emoji>)
    requires ':' !in p
    ensures ReplaceShortcodes(p + t, catalog) == p + ReplaceShortcodes(t, catalog)
  {
    if p == [] {
      assert p + t == t;
    } else {
      var s := p + t;
      assert s[0] == p[0] && s[1..] == p[1..] + t;
      PlainStep(s, catalog);
      ColonFreePrefix(p[1..], t, catalog);
      ConcatCons(p, ReplaceShortcodes(t, catalog));
    }
  }

  /** With an empty catalog no shortcode is known, so nothing changes. */
  lemma {:induction false} EmptyCatalogUnchanged(s: string)
    ensures ReplaceShortcodes(s, []) == s
    decreases |s|
  {
    if s != [] {
      if s[0] == ':' && ShortcodeAt(s) {
        var n := RunLength(s[1..], ShortcodeName);
        EmptyCatalogUnchanged(s[2 + n..]);
        assert s == s[..2 + n] + s[2 + n..];
      } else {
        EmptyCatalogUnchanged(s[1..]);
        assert s == [s[0]] + s[1..];
      }
    }
  }

  /** The message `handleSend` appends: mentions de-sigiled, then shortcodes resolved. */
  function ProcessMessage(input: string, catalog: seq<Emoji>): (r: string)
    ensures '@' !in input && ':' !in input ==> r == input
  {
    var stripped := StripMentions(input);
    assert '@' !in input ==> stripped == input by {
      if '@' !in input {
        NoSigilUnchanged(input);
      }
    }
    ReplaceShortcodes(stripped, catalog)
  }

  /** A message that ends in a shortcode: the shortcode becomes the glyph when known and stays otherwise. */
  lemma TrailingShortcodeMessage(prefix: string, name: string, catalog: seq<Emoji>)
    requires '@' !in prefix && ':' !in prefix
    requires name != [] && AllIn(name, ShortcodeName)
    ensures var m := ProcessMessage(prefix + ":" + name + ":", catalog);
      match FindEmoji(catalog, name)
      case Some(e) => m == prefix + e.glyph
      case None => m == prefix + ":" + name + ":"
  {
    // The trailing `+ ""` is the empty `rest` of `KnownShortcode` and `UnknownShortcode`.
    var code := ":" + name + ":" + "";
    var s := prefix + code;
    assert prefix + ":" + name + ":" == s;
    ShortcodeTextHasNoSigil(prefix, name);
    NoSigilUnchanged(s);
    ColonFreePrefix(prefix, code, catalog);
    var found := FindEmoji(catalog, name);
    if found.Some? {
      KnownShortcode(name, "", catalog, found.value);
    } else {
      UnknownShortcode(name, "", catalog);
    }
  }

  /** Stated with the empty `rest` of `KnownShortcode`, the shape `TrailingShortcodeMessage` works in. */
  lemma ShortcodeTextHasNoSigil(prefix: string, name: string)
    requires '@' !in prefix && AllIn(name, ShortcodeName)
    ensures '@' !in prefix + (":" + name + ":" + "")
  {
    var s := prefix + (":" + name + ":" + "");
    forall i | 0 <= i < |s|
      ensures s[i] != '@'
    {
      if i >= |prefix| + 1 && i < |prefix| + 1 + |name| {
        assert s[i] == name[i - |prefix| - 1];
      }
    }
  }

  /** `"great game :fire:"` becomes `"great game 🔥"`. */
  lemma KnownShortcodeExample()
    ensures ProcessMessage("great game :fire:", [Emoji("fire", "\U{1F525}")]) == "great game \U{1F525}"
  {
    var catalog := [Emoji("fire", "\U{1F525}")];
    assert AllIn("fire", ShortcodeName);
    assert FindEmoji(catalog, "fire") == Some(catalog[0]);
    TrailingShortcodeMessage("great game ", "fire", catalog);
    assert "great game " + ":" + "fire" + ":" == "great game :fire:";
  }

  /** `"see :nope:"` is sent verbatim when the catalog has no such name. */
  lemma UnknownShortcodeExample()
    ensures ProcessMessage("see :nope:", [Emoji("fire", "\U{1F525}")]) == "see :nope:"
  {
    var catalog := [Emoji("fire", "\U{1F525}")];
    assert AllIn("nope", ShortcodeName);
    assert FindEmoji(catalog, "nope").None?;
    TrailingShortcodeMessage("see ", "nope", catalog);
    assert "see " + ":" + "nope" + ":" == "see :nope:";
  }
}
