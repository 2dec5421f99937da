/**
 * The command dispatch of `handle_user_input`: one input line, lower-cased and
 * stripped, is read as one command, validated against the size of the working set.
 * Parsing is pure; what each command does is in module Session.
 */
module Commands {
  import opened Wrappers
  import opened Text

  datatype Command =
    | Quit                        // q
    | SelectAll                   // a
    | DeselectAll                 // d
    | Refresh                     // r
    | ClearFilters                // c
    | Export                      // e
    | SetHours(hours: int)        // h <n> with n > 0
    | HoursNotPositive(hours: int)
    | HoursMalformed              // h <not an integer>
    | SetKeyword(term: string)    // s <text>, text stripped and non-empty
    | KeywordEmpty
    | Reply(index: int)           // p <k> with 1 <= k <= size
    | ReplyOutOfRange(index: int)
    | ReplyMalformed
    | MarkRead                    // m
    | Toggle(index: int)          // <k> with 1 <= k <= size
    | ToggleOutOfRange(index: int)
    | Unrecognized

  /** The commands after which the loop keeps waiting for input with nothing changed. */
  predicate IsRejected(c: Command) {
    c.HoursNotPositive? || c.HoursMalformed? || c.KeywordEmpty? || c.ReplyOutOfRange? || c.ReplyMalformed?
    || c.ToggleOutOfRange? || c.Unrecognized?
  }

  /** `input(...).lower().strip()`. */
  function Normalize(line: string): string {
    Strip(ToLower(line))
  }

  /** `h <n>`: the second word must be an integer, and a positive one. */
  function ParseHours(c: string): (cmd: Command)
    ensures cmd.SetHours? || cmd.HoursNotPositive? || cmd.HoursMalformed?
    ensures cmd.SetHours? ==> cmd.hours > 0
    ensures cmd.HoursNotPositive? ==> cmd.hours <= 0
  {
    match SecondWord(c)
    case None => HoursMalformed
    case Some(word) =>
      match ParseInt(word)
      case None => HoursMalformed
      case Some(h) => if h > 0 then SetHours(h) else HoursNotPositive(h)
  }

  /** `s <text>`: everything after the verb, stripped. */
  function ParseKeyword(c: string): (cmd: Command)
    requires |c| >= 2
    ensures cmd.SetKeyword? || cmd.KeywordEmpty?
    ensures cmd.SetKeyword? ==> cmd.term != [] && Strip(cmd.term) == cmd.term
  {
    var term := Strip(c[2..]);
    StripIdempotent(c[2..]);
    if term != [] then SetKeyword(term) else KeywordEmpty
  }

  /** `p <k>`: the second word must be an integer naming a listed message. */
  function ParseReply(c: string, size: int): (cmd: Command)
    ensures cmd.Reply? || cmd.ReplyOutOfRange? || cmd.ReplyMalformed?
    ensures cmd.Reply? ==> 1 <= cmd.index <= size
    ensures cmd.ReplyOutOfRange? ==> !(1 <= cmd.index <= size)
  {
    match SecondWord(c)
    case None => ReplyMalformed
    case Some(word) =>
      match ParseInt(word)
      case None => ReplyMalformed
      case Some(k) => if 1 <= k <= size then Reply(k) else ReplyOutOfRange(k)
  }

  /** Anything else: a bare integer toggles that message. */
  function ParseToggle(c: string, size: int): (cmd: Command)
    ensures cmd.Toggle? || cmd.ToggleOutOfRange? || cmd.Unrecognized?
    ensures cmd.Toggle? ==> 1 <= cmd.index <= size
    ensures cmd.ToggleOutOfRange? ==> !(1 <= cmd.index <= size)
  {
    match ParseInt(c)
    case None => Unrecognized
    case Some(k) => if 1 <= k <= size then Toggle(k) else ToggleOutOfRange(k)
  }

  /** The dispatch on an already normalised line, in the source's order of tests. */
  function Dispatch(c: string, size: int): (cmd: Command)
    ensures cmd.Toggle? || cmd.Reply? ==> 1 <= cmd.index <= size
    ensures cmd.ToggleOutOfRange? || cmd.ReplyOutOfRange? ==> !(1 <= cmd.index <= size)
    ensures cmd.SetHours? ==> cmd.hours > 0
    ensures cmd.HoursNotPositive? ==> cmd.hours <= 0
    ensures cmd.SetKeyword? ==> cmd.term != [] && Strip(cmd.term) == cmd.term
  {
    if c == "q" then Quit
    else if c == "a" then SelectAll
    else if c == "d" then DeselectAll
    else if c == "r" then Refresh
    else if c == "c" then ClearFilters
    else if c == "e" then Export
    else if StartsWith(c, "h ") then ParseHours(c)
    else if StartsWith(c, "s ") then ParseKeyword(c)
    else if StartsWith(c, "p ") then ParseReply(c, size)
    else if c == "m" then MarkRead
    else ParseToggle(c, size)
  }

  /** The command a line stands for when `size` messages are listed. */
  function Parse(line: string, size: int): (cmd: Command)
    ensures cmd.Toggle? || cmd.Reply? ==> 1 <= cmd.index <= size
    ensures cmd.ToggleOutOfRange? || cmd.ReplyOutOfRange? ==> !(1 <= cmd.index <= size)
    ensures cmd.SetHours? ==> cmd.hours > 0
    ensures cmd.HoursNotPositive? ==> cmd.hours <= 0
    ensures cmd.SetKeyword? ==> cmd.term != [] && Strip(cmd.term) == cmd.term
  {
    Dispatch(Normalize(line), size)
  }

  /** A keyword taken from a normalised `s ...` line is never blank. */
  lemma KeywordNotBlank(line: string, c: string)
    requires c == Strip(ToLower(line)) && StartsWith(c, "s ")
    ensures Strip(c[2..]) != []
  {
    StripEmptyIffBlank(ToLower(line));
    assert c[1] == ' ';
    assert |c| > 2 && !IsSpace(c[|c| - 1]);
    var rest := c[2..];
    assert rest[|rest| - 1] == c[|c| - 1];
    StripEmptyIffBlank(rest);
  }

  /** A keyword taken from a normalised line is already lower-case. */
  lemma KeywordLower(line: string, c: string)
    requires c == Strip(ToLower(line)) && |c| >= 2
    ensures IsLower(Strip(c[2..]))
  {
    ToLowerIsLower(line);
    StripKeepsLower(ToLower(line));
    var rest := c[2..];
    assert IsLower(rest) by {
      assert forall i :: 0 <= i < |rest| ==> rest[i] == c[i + 2];
    }
    StripKeepsLower(rest);
  }

  /** Every keyword the parser accepts is lower-case. */
  lemma ParseKeywordLower(line: string, size: int)
    ensures Parse(line, size).SetKeyword? ==> IsLower(Parse(line, size).term)
  {
    var c := Normalize(line);
    if Parse(line, size).SetKeyword? {
      assert StartsWith(c, "s ");
      KeywordLower(line, c);
    }
  }

  /** The source's "empty search term" message cannot be reached: normalisation already removed the blanks. */
  lemma ParseNeverKeywordEmpty(line: string, size: int)
    ensures Parse(line, size) != KeywordEmpty
  {
    var c := Normalize(line);
    if StartsWith(c, "s ") {
      KeywordNotBlank(line, c);
    }
  }

  /** Lower-casing `s <text>` lower-cases the text and keeps the verb. */
  lemma LowerVerbText(t: string)
    ensures ToLower("s " + t) == "s " + ToLower(t)
  {
    ToLowerAppend("s ", t);
    assert ToLower("s ") == "s ";
  }

  /** A normalised `s <text>` line with non-blank text is the verb, the text's leading blanks, and the stripped text. */
  lemma NormalizeVerbText(t: string) returns (a: string)
    requires !IsBlank(t)
    ensures IsBlank(a) && Normalize("s " + t) == "s " + a + Strip(ToLower(t))
  {
    var low := ToLower(t);
    LowerVerbText(t);
    ToLowerBlank(t);
    var b;
    a, b := StripSplit(low);
    var core := Strip(low);
    StripEmptyIffBlank(low);
    var c := "s " + a + core;
    assert c[|c| - 1] == core[|core| - 1];
    StripFramed([], c, b);
    assert [] + c + b == "s " + low;
  }

  /** `s <text>` with non-blank text sets the search term to the text lower-cased and stripped. */
  lemma ParseKeywordFilled(t: string, size: int)
    requires !IsBlank(t)
    ensures Parse("s " + t, size) == SetKeyword(Strip(ToLower(t)))
  {
    var a := NormalizeVerbText(t);
    var core := Strip(ToLower(t));
    var c := "s " + a + core;
    ToLowerBlank(t);
    StripEmptyIffBlank(ToLower(t));
    assert c[2..] == a + core;
    StripFramed(a, core, []);
    assert a + core + [] == c[2..];
    assert c[0] == 's' && c[1] == ' ' && |c| > 2;
    assert StartsWith(c, "s ") && !StartsWith(c, "h ");
  }

  /** `s` followed by blanks normalises to `s`, which no branch recognises. */
  lemma ParseKeywordBlank(t: string, size: int)
    requires IsBlank(t)
    ensures Parse("s " + t, size) == Unrecognized
  {
    LowerVerbText(t);
    ToLowerBlank(t);
    StripFramed([], "s", " " + ToLower(t));
    assert [] + "s" + (" " + ToLower(t)) == "s " + ToLower(t);
    assert ParseInt("s") == None by {
      StripUnchanged("s");
    }
  }

  /**
   * `s <text>` sets the search term to the text lower-cased and stripped; with blank text
   * the normalised line is just `s`, which no branch recognises.
   */
  lemma ParseKeywordValue(t: string, size: int)
    ensures Parse("s " + t, size) == if IsBlank(t) then Unrecognized else SetKeyword(Strip(ToLower(t)))
  {
    if IsBlank(t) {
      ParseKeywordBlank(t, size);
    } else {
      ParseKeywordFilled(t, size);
    }
  }

  /** A normalised `h ...` or `p ...` line always has a second word, so the source's IndexError handler is never used. */
  lemma VerbHasArgument(line: string, verb: char)
    requires StartsWith(Normalize(line), [verb, ' '])
    ensures SecondWord(Normalize(line)).Some?
  {
    var c := Normalize(line);
    StripEmptyIffBlank(ToLower(line));
    assert !IsSpace(c[0]) && !IsSpace(c[|c| - 1]) && c[1] == ' ' && |c| > 2;
    var w := Word(c);
    assert |w| == 1 by {
      assert w == [c[0]] + Word(c[1..]);
      assert Word(c[1..]) == [];
    }
    var rest := c[1..];
    assert rest[|rest| - 1] == c[|c| - 1];
    SecondWordPresent(c);
  }

  /** A lower-case line with no surrounding whitespace is its own normal form. */
  lemma NormalizeUnchanged(s: string)
    requires IsLower(s)
    requires s == [] || (!IsSpace(s[0]) && !IsSpace(s[|s| - 1]))
    ensures Normalize(s) == s
  {
    ToLowerIsLower(s);
    StripUnchanged(s);
  }

  /** A normalised line starting with a digit or a minus sign goes to the bare-integer branch. */
  lemma DispatchNumeric(c: string, size: int)
    requires |c| > 0 && (IsDigit(c[0]) || c[0] == '-')
    ensures Dispatch(c, size) == ParseToggle(c, size)
  {
    assert c[0] != 'q' && c[0] != 'a' && c[0] != 'd' && c[0] != 'r' && c[0] != 'c' && c[0] != 'e';
    assert c[0] != 'h' && c[0] != 's' && c[0] != 'p' && c[0] != 'm';
    assert c != "q" && c != "a" && c != "d" && c != "r" && c != "c" && c != "e" && c != "m";
    assert !StartsWith(c, "h ") && !StartsWith(c, "s ") && !StartsWith(c, "p ");
  }

  /** The decimal text of an integer is already normalised. */
  lemma ShowIntNormal(k: int)
    ensures Normalize(ShowInt(k)) == ShowInt(k)
  {
    var s := ShowInt(k);
    ShowIntChars(k);
    assert IsLower(s) by {
      forall i | 0 <= i < |s| ensures LowerChar(s[i]) == s[i] {
        assert IsDigit(s[i]) || s[i] == '-';
      }
    }
    assert IsDigit(s[0]) || s[0] == '-';
    assert IsDigit(s[|s| - 1]) || s[|s| - 1] == '-';
    NormalizeUnchanged(s);
  }

  /**
   * Reading the decimal text of `k` gives the toggle of `k`, or the out-of-range rejection;
   * a number too long for `int()` is not recognised at all.
   */
  lemma ParseShownIndex(k: int, size: int)
    ensures Parse(ShowInt(k), size) ==
            if DecimalDigits(k) > MAX_STR_DIGITS then Unrecognized
            else if 1 <= k <= size then Toggle(k) else ToggleOutOfRange(k)
  {
    var s := ShowInt(k);
    ShowIntNormal(k);
    ShowIntChars(k);
    assert IsDigit(s[0]) || s[0] == '-';
    DispatchNumeric(s, size);
    ParseShowInt(k);
  }

  /** A normalised line starting with `h ` goes to the hours branch. */
  lemma DispatchHours(c: string, size: int)
    requires StartsWith(c, "h ")
    ensures Dispatch(c, size) == ParseHours(c)
  {
    assert c[0] == 'h' && |c| >= 2;
  }

  /** A normalised line starting with `p ` goes to the reply branch. */
  lemma DispatchReply(c: string, size: int)
    requires StartsWith(c, "p ")
    ensures Dispatch(c, size) == ParseReply(c, size)
  {
    assert c[0] == 'p' && |c| >= 2;
  }

  /** `<verb> <word>` with a lower-case word free of whitespace is already normalised. */
  lemma VerbWordNormal(verb: char, w: string)
    requires LowerChar(verb) == verb && !IsSpace(verb)
    requires w != [] && IsLower(w) && IsWord(w)
    ensures Normalize([verb, ' '] + w) == [verb, ' '] + w
  {
    var c := [verb, ' '] + w;
    assert IsLower(c) by {
      forall i | 0 <= i < |c| ensures LowerChar(c[i]) == c[i] {
        if i >= 2 { assert c[i] == w[i - 2]; }
      }
    }
    assert c[|c| - 1] == w[|w| - 1];
    NormalizeUnchanged(c);
  }

  /** The text of an integer is lower-case and free of whitespace. */
  lemma ShowIntWord(k: int)
    ensures ShowInt(k) != [] && IsLower(ShowInt(k))
    ensures IsWord(ShowInt(k))
  {
    var n := ShowInt(k);
    ShowIntChars(k);
    forall i | 0 <= i < |n| ensures !IsSpace(n[i]) && LowerChar(n[i]) == n[i] {
      assert IsDigit(n[i]) || n[i] == '-';
    }
  }

  /** `h <word>` sets the hours filter to the word's value when positive, and is rejected otherwise. */
  lemma ParseHoursWord(w: string, size: int)
    requires w != [] && IsLower(w) && IsWord(w)
    ensures Parse("h " + w, size) == match ParseInt(w)
      case None => HoursMalformed
      case Some(h) => if h > 0 then SetHours(h) else HoursNotPositive(h)
  {
    VerbWordNormal('h', w);
    assert "h " + w == ['h', ' '] + w;
    DispatchHours("h " + w, size);
    SecondWordOfVerb('h', w);
  }

  /** `p <word>` replies to the message the word names when it is listed, and is rejected otherwise. */
  lemma ParseReplyWord(w: string, size: int)
    requires w != [] && IsLower(w) && IsWord(w)
    ensures Parse("p " + w, size) == match ParseInt(w)
      case None => ReplyMalformed
      case Some(k) => if 1 <= k <= size then Reply(k) else ReplyOutOfRange(k)
  {
    VerbWordNormal('p', w);
    assert "p " + w == ['p', ' '] + w;
    DispatchReply("p " + w, size);
    SecondWordOfVerb('p', w);
  }

  /** `h` followed by the decimal text of `h` sets the hours filter exactly when `h` is positive and short enough for `int()`. */
  lemma ParseShownHours(h: int, size: int)
    ensures Parse("h " + ShowInt(h), size) ==
            if DecimalDigits(h) > MAX_STR_DIGITS then HoursMalformed
            else if h > 0 then SetHours(h) else HoursNotPositive(h)
  {
    ShowIntWord(h);
    ParseHoursWord(ShowInt(h), size);
    ParseShowInt(h);
  }

  /** `p` followed by the decimal text of `k` replies to message `k` exactly when it is listed. */
  lemma ParseShownReply(k: int, size: int)
    ensures Parse("p " + ShowInt(k), size) ==
            if DecimalDigits(k) > MAX_STR_DIGITS then ReplyMalformed
            else if 1 <= k <= size then Reply(k) else ReplyOutOfRange(k)
  {
    ShowIntWord(k);
    ParseReplyWord(ShowInt(k), size);
    ParseShowInt(k);
  }

  /** A word that is not an integer after `h` is rejected as malformed. */
  lemma ParseHoursNotANumber(size: int)
    ensures Parse("h abc", size) == HoursMalformed
  {
    var w := "abc";
    assert !IsSpace(w[0]) && !IsSpace(w[1]) && !IsSpace(w[2]);
    assert IsLower(w) && IsWord(w);
    assert ParseInt(w) == None by {
      StripUnchanged(w);
      assert !IsDigit(w[0]);
    }
    ParseHoursWord(w, size);
    assert "h " + w == "h abc";
  }

  /** `h 24` sets a 24-hour window. */
  lemma ParseHoursExample(size: int)
    ensures Parse("h 24", size) == SetHours(24)
  {
    assert ShowInt(24) == "24";
    assert "h " + ShowInt(24) == "h 24";
    ParseShownHours(24, size);
  }

  /** `h -5` is rejected as not positive. */
  lemma ParseHoursNegativeExample(size: int)
    ensures Parse("h -5", size) == HoursNotPositive(-5)
  {
    assert ShowInt(-5) == "-5";
    assert "h " + ShowInt(-5) == "h -5";
    ParseShownHours(-5, size);
  }

  /** With three messages listed, `p 2` replies to the second. */
  lemma ParseReplyExample()
    ensures Parse("p 2", 3) == Reply(2)
  {
    assert ShowInt(2) == "2";
    assert "p " + ShowInt(2) == "p 2";
    ParseShownReply(2, 3);
  }

  /** With three messages listed, `p 5` is out of range. */
  lemma ParseReplyOutOfRangeExample()
    ensures Parse("p 5", 3) == ReplyOutOfRange(5)
  {
    assert ShowInt(5) == "5";
    assert "p " + ShowInt(5) == "p 5";
    ParseShownReply(5, 3);
  }

  /** With three messages listed, `2` toggles the second and `4` is out of range. */
  lemma ParseToggleExamples()
    ensures Parse("2", 3) == Toggle(2) && Parse("4", 3) == ToggleOutOfRange(4)
  {
    ParseShownIndex(2, 3);
    assert ShowInt(2) == "2";
    ParseShownIndex(4, 3);
    assert ShowInt(4) == "4";
  }
}
