/**
 * Recognition of a command message in the `messageCreate` handler of
 * index.js: the prefix and author test, then the command word taken from
 * the text after the prefix.
 */
module CommandParsing {
  import opened Wrappers
  import opened JsStrings

  /** `prefix`, the bot's command prefix. */
  const Prefix: string := "!"

  /** What the handler reads of an incoming message. */
  datatype Message = Message(content: string, authorIsBot: bool)

  /** The two commands the handler acts on. */
  datatype Command = Lock | Unlock

  /** The handler goes past its first line only for prefixed messages from people. */
  predicate IsAddressed(m: Message) {
    StartsWith(m.content, Prefix) && !m.authorIsBot
  }

  /**
   * `message.content.slice(prefix.length).trim().split(/ +/)`, first field,
   * lower-cased: a word with no space and no upper-case letter, so the
   * comparison with `lock` and `unlock` ignores case.
   */
  function CommandWord(content: string): (word: string)
    ensures forall i :: 0 <= i < |word| ==> word[i] != ' ' && !IsUpperAscii(word[i])
  {
    ToLowerCase(FirstSplitField(Trim(Slice(content, |Prefix|))))
  }

  /** `command === 'lock' || command === 'unlock'`. */
  function Recognize(word: string): Option<Command> {
    if word == "lock" then Some(Lock)
    else if word == "unlock" then Some(Unlock)
    else None
  }

  /** Leading white space in front of a word is exactly what `TrimStart` drops. */
  lemma TrimStartBeforeWord(lead: string, rest: string)
    requires AllTrimmable(lead)
    requires rest != [] && !IsTrimmable(rest[0])
    ensures TrimStart(lead + rest) == rest
  {
    var x := lead + rest;
    var r := TrimStart(x);
    assert !IsTrimmable(x[|lead|]);
    assert forall i :: 0 <= i < |lead| ==> IsTrimmable(x[i]);
    assert x[|lead|..] == rest;
  }

  /** `TrimEnd` never cuts into a word that ends in a character it keeps. */
  lemma TrimEndAfterWord(w: string, tail: string)
    requires w != [] && !IsTrimmable(w[|w| - 1])
    ensures |w| <= |TrimEnd(w + tail)|
    ensures TrimEnd(w + tail) == w + tail[..|TrimEnd(w + tail)| - |w|]
  {
    var x := w + tail;
    var t := TrimEnd(x);
    assert !IsTrimmable(x[|w| - 1]);
    assert x[..|t|] == w + tail[..|t| - |w|];
  }

  /** The first field of a word followed by nothing or by a space is the word. */
  lemma FirstSplitFieldOfWord(w: string, more: string)
    requires ' ' !in w
    requires more == [] || more[0] == ' '
    ensures FirstSplitField(w + more) == w
  {
    var x := w + more;
    assert forall i :: 0 <= i < |w| ==> x[i] == w[i];
    assert more != [] ==> x[|w|] == ' ';
    assert x[..|w|] == w;
  }

  /** Trailing white space after a word is exactly what `TrimEnd` drops. */
  lemma TrimEndBeforeWhiteSpace(w: string, tail: string)
    requires w != [] && !IsTrimmable(w[|w| - 1])
    requires AllTrimmable(tail)
    ensures TrimEnd(w + tail) == w
  {
    var x := w + tail;
    TrimEndAfterWord(w, tail);
    var t := TrimEnd(x);
    assert forall j :: |w| <= j < |x| ==> IsTrimmable(x[j]);
    assert t[|t| - 1] == x[|t| - 1];
  }

  /** What `TrimEnd` leaves of a word and a tail that is space-led or only white space: the word, then a space-led rest. */
  lemma TrimEndOfWordAndTail(w: string, tail: string) returns (more: string)
    requires w != [] && !IsTrimmable(w[|w| - 1])
    requires tail == [] || tail[0] == ' ' || AllTrimmable(tail)
    ensures more == [] || more[0] == ' '
    ensures TrimEnd(w + tail) == w + more
  {
    if AllTrimmable(tail) {
      TrimEndBeforeWhiteSpace(w, tail);
      more := [];
      assert w + more == w;
    } else {
      TrimEndAfterWord(w, tail);
      more := tail[..|TrimEnd(w + tail)| - |w|];
    }
  }

  /**
   * Trimming a word framed by leading white space and a tail that is either
   * space-led or only white space keeps the word in front.
   */
  lemma TrimAroundWord(lead: string, w: string, tail: string) returns (more: string)
    requires AllTrimmable(lead)
    requires w != [] && !IsTrimmable(w[0]) && !IsTrimmable(w[|w| - 1])
    requires tail == [] || tail[0] == ' ' || AllTrimmable(tail)
    ensures more == [] || more[0] == ' '
    ensures Trim(lead + (w + tail)) == w + more
  {
    var rest := w + tail;
    assert rest[0] == w[0];
    TrimStartBeforeWord(lead, rest);
    more := TrimEndOfWordAndTail(w, tail);
  }

  /**
   * After the prefix, any leading white space, a word with no space that
   * neither starts nor ends with white space, and then nothing, only white
   * space, or a space and arguments: the command is that word lower-cased,
   * whatever the arguments are.
   */
  lemma {:induction false} CommandWordOf(lead: string, w: string, tail: string)
    requires AllTrimmable(lead)
    requires w != [] && ' ' !in w && !IsTrimmable(w[0]) && !IsTrimmable(w[|w| - 1])
    requires tail == [] || tail[0] == ' ' || AllTrimmable(tail)
    ensures CommandWord(Prefix + (lead + (w + tail))) == ToLowerCase(w)
  {
    var after := lead + (w + tail);
    assert (Prefix + after)[|Prefix|..] == after;
    var more := TrimAroundWord(lead, w, tail);
    FirstSplitFieldOfWord(w, more);
  }

  /** No command word holds white space. */
  lemma CommandHasNoWhiteSpace(word: string, k: nat)
    requires k < |word| && IsTrimmable(word[k])
    ensures Recognize(word) == None
  {
    var lock: string, unlock: string := "lock", "unlock";
    assert forall i :: 0 <= i < |lock| ==> !IsTrimmable(lock[i]);
    assert forall i :: 0 <= i < |unlock| ==> !IsTrimmable(unlock[i]);
  }

  /** A bare word after the prefix is its own command word, lower-cased. */
  lemma CommandWordOfBareWord(word: string)
    requires word != [] && ' ' !in word && !IsTrimmable(word[0]) && !IsTrimmable(word[|word| - 1])
    ensures CommandWord(Prefix + word) == ToLowerCase(word)
  {
    var empty: string := [];
    assert empty + (word + empty) == word;
    CommandWordOf(empty, word, empty);
  }

  /** Lower-casing keeps white space where it is. */
  lemma LowerCaseKeepsWhiteSpace(word: string, k: nat)
    requires k < |word| && IsTrimmable(word[k])
    ensures IsTrimmable(ToLowerCase(word)[k])
  {
    assert LowerChar(word[k]) == word[k];
  }

  /**
   * Only spaces end the command word: a word that holds other white space
   * inside, such as a tab between `lock` and its argument, is neither `lock`
   * nor `unlock`.
   */
  lemma WhiteSpaceInsideWordIsNoCommand(word: string, k: nat)
    requires word != [] && ' ' !in word && !IsTrimmable(word[0]) && !IsTrimmable(word[|word| - 1])
    requires k < |word| && IsTrimmable(word[k])
    ensures Recognize(CommandWord(Prefix + word)) == None
  {
    CommandWordOfBareWord(word);
    LowerCaseKeepsWhiteSpace(word, k);
    CommandHasNoWhiteSpace(ToLowerCase(word), k);
  }
}
