/**
 * The terminal input parser: one line of user text is sanitised and then
 * classified as a slash command (a lower-cased name and its arguments) or as
 * a free-text message.
 */
module Parser {
  import opened Text

  /** The longest input the parser keeps, in characters. */
  const MaxInputLength := 1000

  /** The classification of one line of input. Both variants carry the
      sanitised text as `raw`, never the text as typed. */
  datatype ParsedInput =
    | Command(command: string, args: seq<string>, raw: string)
    | Message(raw: string)

  /** Deletes every control character and keeps the others, in order and
      each as often as it occurred. */
  function RemoveControl(s: string): (r: string)
    ensures NoControl(r) && |r| <= |s|
  {
    if s == [] then []
    else
      assert s == [s[0]] + s[1..];
      (if IsControl(s[0]) then [] else [s[0]]) + RemoveControl(s[1..])
  }

  /** Every character that is not a control character survives as often as
      it occurred; control characters do not survive at all. */
  lemma {:induction false} RemoveControlCounts(s: string)
    ensures forall c :: !IsControl(c) ==> multiset(RemoveControl(s))[c] == multiset(s)[c]
    ensures forall c :: IsControl(c) ==> multiset(RemoveControl(s))[c] == 0
  {
    if s != [] {
      RemoveControlCounts(s[1..]);
      assert s == [s[0]] + s[1..];
      assert multiset(s) == multiset([s[0]]) + multiset(s[1..]);
    }
  }

  /** Removing control characters from a concatenation removes them from
      each part. */
  lemma {:induction false} RemoveControlAppend(a: string, b: string)
    ensures RemoveControl(a + b) == RemoveControl(a) + RemoveControl(b)
  {
    if a != [] {
      assert (a + b)[1..] == a[1..] + b;
      RemoveControlAppend(a[1..], b);
    } else {
      assert a + b == b;
    }
  }

  /** A string with no control character passes through unchanged. */
  lemma {:induction false} RemoveControlOfClean(s: string)
    requires NoControl(s)
    ensures RemoveControl(s) == s
  {
    if s != [] {
      RemoveControlOfClean(s[1..]);
    }
  }

  /** A string of control characters only vanishes. */
  lemma {:induction false} RemoveControlOfControl(s: string)
    requires forall i :: 0 <= i < |s| ==> IsControl(s[i])
    ensures RemoveControl(s) == []
  {
    if s != [] {
      RemoveControlOfControl(s[1..]);
    }
  }

  /** `slice(0, MaxInputLength)`: the longest prefix of at most
      `MaxInputLength` characters. */
  function Truncate(s: string): (r: string)
    ensures |r| == (if |s| <= MaxInputLength then |s| else MaxInputLength)
    ensures r == s[..|r|]
  {
    if |s| <= MaxInputLength then s else s[..MaxInputLength]
  }

  /** Sanitising removes control characters, then truncates, then trims. The
      result holds no control character, is at most `MaxInputLength` long and
      neither begins nor ends with white space. */
  function Sanitize(input: string): (r: string)
    ensures NoControl(r) && |r| <= MaxInputLength && Trimmed(r)
  {
    Trim(Truncate(RemoveControl(input)))
  }

  /** Sanitising is a fixed point after one pass. */
  lemma SanitizeIdempotent(input: string)
    ensures Sanitize(Sanitize(input)) == Sanitize(input)
  {
    var r := Sanitize(input);
    RemoveControlOfClean(r);
    assert Truncate(r) == r;
    TrimOfTrimmed(r);
  }

  /** A string that sanitising leaves unchanged: control-free, short enough
      and trimmed. */
  lemma SanitizeOfClean(s: string)
    requires NoControl(s) && |s| <= MaxInputLength && Trimmed(s)
    ensures Sanitize(s) == s
  {
    RemoveControlOfClean(s);
    assert Truncate(s) == s;
    TrimOfTrimmed(s);
  }

  /** Classifies one line of input. The result is a command exactly when the
      sanitised text starts with "/"; then the words after the slash give the
      command (the first word, lower-cased, or "" when there is none) and the
      arguments (the remaining words, as typed). Every argument is non-empty
      and free of white space and control characters; the command holds no
      capital letter. */
  function ParseInput(input: string): (p: ParsedInput)
    ensures p.raw == Sanitize(input)
    ensures p.Command? <==> StartsWith(p.raw, "/")
    ensures p.Command? ==> NoUpper(p.command) && NoSpace(p.command) && NoControl(p.command)
    ensures p.Command? ==> (p.command == "" <==> Words(p.raw[1..]) == [])
    ensures p.Command? ==> p.command == "" ==> p.args == []
    ensures p.Command? ==> CleanWords(p.args)
  {
    var sanitized := Sanitize(input);
    if StartsWith(sanitized, "/") then
      var parts := Words(sanitized[1..]);
      CommandWordsClean(sanitized);
      if |parts| > 0 then
        CleanWordsSplit(parts);
        Command(Lower(parts[0]), parts[1..], sanitized)
      else
        Command("", [], sanitized)
    else
      Message(sanitized)
  }

  /** The words after the slash of a control-free line are clean. */
  lemma CommandWordsClean(s: string)
    requires NoControl(s) && StartsWith(s, "/")
    ensures CleanWords(Words(s[1..]))
  {
    var body := s[1..];
    assert NoControl(body) by {
      assert forall i :: 0 <= i < |body| ==> body[i] == s[i + 1];
    }
    WordsNoControl(body);
  }

  /** Of clean words, the first lower-cased is a non-empty name without
      capitals, and the others are clean words. */
  lemma CleanWordsSplit(parts: seq<string>)
    requires CleanWords(parts) && |parts| > 0
    ensures Lower(parts[0]) != [] && NoUpper(Lower(parts[0]))
    ensures NoSpace(Lower(parts[0])) && NoControl(Lower(parts[0]))
    ensures CleanWords(parts[1..])
  {
    LowerClasses(parts[0]);
    assert forall j :: 0 <= j < |parts| - 1 ==> parts[1..][j] == parts[j + 1];
  }

  /** The parse depends on the input only through its sanitised text. */
  lemma SameSanitizedSameParse(x: string, y: string)
    requires Sanitize(x) == Sanitize(y)
    ensures ParseInput(x) == ParseInput(y)
  {
  }

  /** Re-parsing the sanitised text of a result gives the same result. */
  lemma ParseIdempotent(input: string)
    ensures ParseInput(ParseInput(input).raw) == ParseInput(input)
  {
    SanitizeIdempotent(input);
  }

  /** The command and arguments are the words after the slash, the first one
      lower-cased and the others in their original order and case. */
  lemma ParseCommandWords(input: string)
    requires StartsWith(Sanitize(input), "/")
    ensures var p := ParseInput(input);
            var parts := Words(p.raw[1..]);
            |parts| > 0 ==> p.command == Lower(parts[0]) && [parts[0]] + p.args == parts
  {
    var s := Sanitize(input);
    var parts := Words(s[1..]);
    if |parts| > 0 {
      assert ParseInput(input) == Command(Lower(parts[0]), parts[1..], s);
      HeadTail(parts);
    }
  }

  /** A non-empty list is its head followed by its tail. */
  lemma HeadTail(parts: seq<string>)
    requires |parts| > 0
    ensures [parts[0]] + parts[1..] == parts
  {
  }

  /** A line of input made of control characters only is an empty message. */
  lemma ParseOfJunk(input: string)
    requires forall i :: 0 <= i < |input| ==> IsControl(input[i])
    ensures ParseInput(input) == Message("")
  {
    RemoveControlOfControl(input);
  }

  /** A line that sanitising leaves unchanged and that does not start with
      "/" is a message carrying that line. */
  lemma ParseOfCleanMessage(s: string)
    requires NoControl(s) && |s| <= MaxInputLength && Trimmed(s) && !StartsWith(s, "/")
    ensures ParseInput(s) == Message(s)
  {
    SanitizeOfClean(s);
  }

  /** A line that sanitising leaves unchanged and that starts with "/" is a
      command taken from the words after the slash. */
  lemma ParseOfCleanCommand(s: string)
    requires NoControl(s) && |s| <= MaxInputLength && Trimmed(s) && StartsWith(s, "/")
    ensures var parts := Words(s[1..]);
            ParseInput(s) == if |parts| > 0 then Command(Lower(parts[0]), parts[1..], s)
                             else Command("", [], s)
  {
    SanitizeOfClean(s);
  }

  /** Round trip: a command line written as "/" followed by a name and its
      arguments, separated by single spaces, parses back into the lower-cased
      name and those arguments. */
  lemma ParseOfCommandLine(name: string, args: seq<string>)
    requires name != [] && NoSpace(name) && NoControl(name)
    requires CleanWords(args)
    requires 1 + |JoinWords([name] + args)| <= MaxInputLength
    ensures var line := "/" + JoinWords([name] + args);
            ParseInput(line) == Command(Lower(name), args, line)
  {
    var ws := [name] + args;
    var body := JoinWords(ws);
    JoinWordsShape(ws);
    WordsOfJoin(ws);
    SlashLine(body);
    ParseOfCleanCommand("/" + body);
    ConsParts(name, args);
  }

  /** A slash in front of a non-empty, control-free text that does not end
      in white space gives a trimmed, control-free line, and the text is what
      follows the slash. */
  lemma SlashLine(body: string)
    requires body != [] && NoControl(body) && !IsSpace(body[|body| - 1])
    ensures var line := "/" + body;
            NoControl(line) && Trimmed(line) && StartsWith(line, "/") && line[1..] == body
  {
    NoControlConcat("/", body);
    var line := "/" + body;
    assert line[|line| - 1] == body[|body| - 1];
  }

  lemma ConsParts(name: string, args: seq<string>)
    ensures ([name] + args)[0] == name && ([name] + args)[1..] == args
  {
  }

  // ---------------------------------------------------------------------
  // The examples of the source's documentation, and edge cases
  // ---------------------------------------------------------------------

  /** The command line "/" + a + w + b is left unchanged by sanitising when
      its parts hold no control character and it does not end in white space. */
  lemma CleanCommandLine(a: string, w: string, b: string)
    requires NoControl(a) && NoControl(w) && NoControl(b)
    requires b != [] && !IsSpace(b[|b| - 1])
    requires 1 + |a| + |w| + |b| <= MaxInputLength
    ensures var line := "/" + a + w + b;
            NoControl(line) && Trimmed(line) && |line| <= MaxInputLength
            && StartsWith(line, "/") && line[1..] == a + w + b
  {
    var body := a + w + b;
    NoControlConcat(a, w);
    NoControlConcat(a + w, b);
    assert body[|body| - 1] == b[|b| - 1];
    SlashLine(body);
    assert "/" + a + w + b == "/" + body;
  }

  /** Runs of white space between the words of a command collapse: a run
      parses like a single space. */
  lemma ParseCollapsesRuns(a: string, w: string, b: string)
    requires |w| > 0 && AllSpace(w)
    requires NoControl(a) && NoControl(w) && NoControl(b)
    requires b != [] && !IsSpace(b[|b| - 1])
    requires 1 + |a| + |w| + |b| <= MaxInputLength
    ensures var p := ParseInput("/" + a + w + b);
            var q := ParseInput("/" + a + " " + b);
            p.Command? && q.Command? && p.command == q.command && p.args == q.args
  {
    CleanCommandLine(a, w, b);
    CleanCommandLine(a, " ", b);
    ParseOfCleanCommand("/" + a + w + b);
    ParseOfCleanCommand("/" + a + " " + b);
    WordsCollapse(a, w, b);
    WordsSeparated(a, ' ', b);
    assert a + [' '] + b == a + " " + b;
  }

  /** White space around a line is ignored: it is trimmed before the slash is
      looked for, and it never reaches `raw`. */
  lemma ParseIgnoresPadding(w1: string, s: string, w2: string)
    requires AllSpace(w1) && AllSpace(w2) && NoControl(w1) && NoControl(w2)
    requires s != [] && Trimmed(s) && NoControl(s)
    requires |w1| + |s| + |w2| <= MaxInputLength
    ensures ParseInput(w1 + s + w2) == ParseInput(s)
  {
    var line := w1 + s + w2;
    NoControlConcat(w1, s);
    NoControlConcat(w1 + s, w2);
    RemoveControlOfClean(line);
    assert Truncate(line) == line;
    TrimPadded(w1, s, w2);
    assert Sanitize(line) == s;
    SanitizeOfClean(s);
    SameSanitizedSameParse(line, s);
  }

  // Facts about the literals below, each proved on its own so that the
  // example lemmas need not evaluate them.

  lemma HelpLiterals()
    ensures JoinWords(["help"] + []) == "help" && "/" + "help" == "/help"
    ensures Lower("help") == "help" && NoSpace("help") && NoControl("help")
  {
  }

  lemma SkillsJoin()
    ensures JoinWords(["skills"] + ["react"]) == "skills react"
    ensures "/" + "skills react" == "/skills react"
  {
    var ws: seq<string> := ["skills", "react"];
    assert ["skills"] + ["react"] == ws;
  }

  lemma SkillsWords()
    ensures Lower("skills") == "skills" && NoSpace("skills") && NoControl("skills")
  {
  }

  lemma ReactWords()
    ensures CleanWords(["react"])
  {
    assert NoSpace("react") && NoControl("react");
  }

  lemma CapitalisedJoin()
    ensures JoinWords(["HeLP"] + ["Me"]) == "HeLP Me"
    ensures "/" + "HeLP Me" == "/HeLP Me"
  {
    var ws: seq<string> := ["HeLP", "Me"];
    assert ["HeLP"] + ["Me"] == ws;
  }

  lemma CapitalisedWords()
    ensures Lower("HeLP") == "help" && NoSpace("HeLP") && NoControl("HeLP")
    ensures CleanWords(["Me"])
  {
  }

  lemma ParseHelp()
    ensures ParseInput("/help") == Command("help", [], "/help")
  {
    HelpLiterals();
    ParseOfCommandLine("help", []);
  }

  lemma ParseSkillsReact()
    ensures ParseInput("/skills react") == Command("skills", ["react"], "/skills react")
  {
    SkillsJoin();
    SkillsWords();
    ReactWords();
    ParseOfCommandLine("skills", ["react"]);
  }

  /** A capitalised command name is lower-cased; its arguments keep their case. */
  lemma ParseCapitalisedCommand()
    ensures ParseInput("/HeLP Me") == Command("help", ["Me"], "/HeLP Me")
  {
    CapitalisedJoin();
    CapitalisedWords();
    ParseOfCommandLine("HeLP", ["Me"]);
  }

  lemma ParseMessage()
    ensures ParseInput("tell me about forwheel") == Message("tell me about forwheel")
  {
    ParseOfCleanMessage("tell me about forwheel");
  }

  /** Empty input is an empty message. */
  lemma ParseEmpty()
    ensures ParseInput("") == Message("")
  {
    ParseOfCleanMessage("");
  }

  /** A lone slash is a command with an empty name and no arguments. */
  lemma ParseLoneSlash()
    ensures ParseInput("/") == Command("", [], "/")
  {
    ParseOfCleanCommand("/");
    assert "/"[1..] == "";
  }

  /** The surrounding white space is trimmed before the slash is looked for. */
  lemma ParsePaddedCommand()
    ensures ParseInput("  /help  ") == Command("help", [], "/help")
  {
    assert "  /help  " == "  " + "/help" + "  ";
    ParseIgnoresPadding("  ", "/help", "  ");
    ParseHelp();
  }

  /** Control characters are removed before truncating: a thousand of them
      in front of a word do not use up the length budget. */
  lemma ControlRemovedBeforeTruncation()
    ensures ParseInput(seq(MaxInputLength, _ => '\0') + "hi") == Message("hi")
  {
    var junk := seq(MaxInputLength, _ => '\0');
    RemoveControlAppend(junk, "hi");
    RemoveControlOfControl(junk);
    RemoveControlOfClean("hi");
    assert RemoveControl(junk + "hi") == "hi";
    assert Truncate("hi") == "hi";
    ParseOfCleanMessage("hi");
  }

  /** Truncation comes before trimming: when white space fills all but one
      place of the length budget, only the first of two following
      characters survives. */
  lemma SanitizeTruncatesBeforeTrimming(pad: string, a: char, b: char)
    requires |pad| == MaxInputLength - 1 && AllSpace(pad) && NoControl(pad)
    requires !IsSpace(a) && !IsControl(a) && !IsControl(b)
    ensures Sanitize(pad + [a, b]) == [a]
  {
    var input := pad + [a, b];
    NoControlConcat(pad, [a, b]);
    RemoveControlOfClean(input);
    assert input == pad + [a] + [b];
    TruncateKeepsPrefix(pad, [a], [b]);
    assert pad + [a] + [] == pad + [a];
    TrimPadded(pad, [a], []);
  }

  lemma TruncateKeepsPrefix(pad: string, a: string, b: string)
    requires |pad + a| == MaxInputLength
    ensures Truncate(pad + a + b) == pad + a
  {
    assert (pad + a + b)[..MaxInputLength] == pad + a;
  }

  /** Of "ab" after 999 spaces only "a" survives. */
  lemma TruncationBeforeTrimming()
    ensures ParseInput(seq(MaxInputLength - 1, _ => ' ') + "ab") == Message("a")
  {
    var pad := seq(MaxInputLength - 1, _ => ' ');
    assert pad + "ab" == pad + ['a', 'b'];
    SanitizeTruncatesBeforeTrimming(pad, 'a', 'b');
    assert ['a'] == "a";
    ParseOfCleanMessage("a");
    SameSanitizedSameParse(pad + "ab", "a");
  }
}
