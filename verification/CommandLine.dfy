/** The printed `rototo resolve` command line, and the shell that splits it back into
    words. */
module CommandLine {
  import opened Prelude
  import opened Json
  import opened ContextArgs
  import Text

  predicate IsSafe(c: char) {
    'a' <= c <= 'z' || 'A' <= c <= 'Z' || '0' <= c <= '9'
    || c == '_' || c == '.' || c == '/' || c == '=' || c == ':' || c == '-' || c == '@' || c == '+'
  }

  predicate AllSafe(word: string) {
    forall i | 0 <= i < |word| :: IsSafe(word[i])
  }

  /** Words of safe characters stay bare; the rest go in single quotes, each quote
      inside written as `'\''`. */
  function ShellQuote(word: string): string {
    if word != "" && AllSafe(word) then word else "'" + QuoteBody(word) + "'"
  }

  function QuoteBody(word: string): string {
    if |word| == 0 then ""
    else (if word[0] == '\'' then "'\\''" else [word[0]]) + QuoteBody(word[1..])
  }

  // ---- The shell ----

  function Finish(word: Option<string>): seq<string> {
    if word.Some? then [word.value] else []
  }

  function Add(word: Option<string>, c: char): Option<string> {
    Some((if word.Some? then word.value else "") + [c])
  }

  /** Field splitting by POSIX shell rules for blanks, backslashes and single quotes.
      Any other unquoted character that means something to a shell gives no answer. */
  function Words(s: string, word: Option<string>): Option<seq<string>>
    decreases |s|
  {
    if |s| == 0 then Some(Finish(word))
    else if s[0] == ' ' then
      (match Words(s[1..], None)
       case None => None
       case Some(rest) => Some(Finish(word) + rest))
    else if s[0] == '\'' then Quoted(s[1..], if word.Some? then word.value else "")
    else if s[0] == '\\' then if |s| == 1 then None else Words(s[2..], Add(word, s[1]))
    else if IsSafe(s[0]) then Words(s[1..], Add(word, s[0]))
    else None
  }

  function Quoted(s: string, word: string): Option<seq<string>>
    decreases |s|
  {
    if |s| == 0 then None
    else if s[0] == '\'' then Words(s[1..], Some(word))
    else Quoted(s[1..], word + [s[0]])
  }

  lemma {:induction false} BareWord(word: string, rest: string, before: Option<string>)
    requires word != "" && AllSafe(word)
    ensures Words(word + rest, before) == Words(rest, Some((if before.Some? then before.value else "") + word))
    decreases |word|
  {
    assert (word + rest)[1..] == word[1..] + rest;
    var so := if before.Some? then before.value else "";
    assert so + word == so + [word[0]] + word[1..];
    if |word| > 1 {
      BareWord(word[1..], rest, Add(before, word[0]));
    } else {
      assert word[1..] + rest == rest && so + word == so + [word[0]];
    }
  }

  lemma {:induction false} QuotedWord(word: string, rest: string, before: string)
    ensures Quoted(QuoteBody(word) + "'" + rest, before) == Words(rest, Some(before + word))
    decreases |word|
  {
    var text := QuoteBody(word) + "'" + rest;
    if |word| == 0 {
      assert text == "'" + rest && text[1..] == rest && before + word == before;
    } else {
      var tail := QuoteBody(word[1..]) + "'" + rest;
      QuotedWord(word[1..], rest, before + [word[0]]);
      assert before + word == before + [word[0]] + word[1..];
      if word[0] == '\'' {
        QuoteCharacter(text, tail, before);
      } else {
        assert text == [word[0]] + tail && text[1..] == tail;
      }
    }
  }

  lemma QuoteCharacter(text: string, tail: string, before: string)
    requires text == "'\\''" + tail
    ensures Quoted(text, before) == Quoted(tail, before + ['\''])
  {
    var bare := text[1..];
    assert bare == "\\''" + tail && bare[0] == '\\' && bare[1] == '\'';
    var again := bare[2..];
    assert again == "'" + tail && again[1..] == tail;
    assert Quoted(text, before) == Words(bare, Some(before));
    assert Words(bare, Some(before)) == Words(again, Some(before + ['\'']));
  }

  lemma OpeningQuote(body: string, rest: string)
    ensures Words("'" + body + "'" + rest, None) == Quoted(body + "'" + rest, "")
  {
    var text := "'" + body + "'" + rest;
    assert text[0] == '\'' && text[1..] == body + "'" + rest;
  }

  /** A quoted word at the front of a command is read as that word. */
  lemma QuoteReads(word: string, rest: string)
    ensures Words(ShellQuote(word) + rest, None) == Words(rest, Some(word))
  {
    assert "" + word == word;
    if word != "" && AllSafe(word) {
      BareWord(word, rest, None);
    } else {
      QuotedWord(word, rest, "");
      OpeningQuote(QuoteBody(word), rest);
    }
  }

  function QuoteAll(words: seq<string>): (r: seq<string>)
    ensures |r| == |words| && forall i | 0 <= i < |r| :: r[i] == ShellQuote(words[i])
  {
    seq(|words|, i requires 0 <= i < |words| => ShellQuote(words[i]))
  }

  lemma NextWord(word: string, rest: string, others: seq<string>)
    requires Words(rest, None) == Some(others)
    ensures Words(ShellQuote(word) + [' '] + rest, None) == Some([word] + others)
  {
    var tail := [' '] + rest;
    QuoteReads(word, tail);
    assert tail[1..] == rest;
    assert ShellQuote(word) + [' '] + rest == ShellQuote(word) + tail;
  }

  /** The shell gets back exactly the words that were quoted, whatever they hold. */
  lemma {:induction false} ShellReadsWords(words: seq<string>)
    ensures Words(Text.Join(QuoteAll(words), ' '), None) == Some(words)
    decreases |words|
  {
    if |words| == 0 {
      assert Text.Join(QuoteAll(words), ' ') == "" && words == [];
    } else if |words| == 1 {
      assert words == [words[0]];
      QuoteReads(words[0], "");
      assert ShellQuote(words[0]) + "" == ShellQuote(words[0]);
    } else {
      var rest := Text.Join(QuoteAll(words[1..]), ' ');
      ShellReadsWords(words[1..]);
      assert QuoteAll(words)[1..] == QuoteAll(words[1..]);
      assert Text.Join(QuoteAll(words), ' ') == ShellQuote(words[0]) + [' '] + rest;
      NextWord(words[0], rest, words[1..]);
      assert [words[0]] + words[1..] == words;
    }
  }

  // ---- The whole command ----

  function ContextWords(args: seq<string>): seq<string> {
    if |args| == 0 then [] else ContextWords(args[..|args| - 1]) + ["--context", args[|args| - 1]]
  }

  function CommandWords(cli: Cli, source: string, id: string, context: Json, form: ContextForm): seq<string> {
    ["rototo", "resolve", source, "--variable", id] + ContextWords(ArgumentsFor(cli, context, form))
  }

  lemma QuoteConcat(a: seq<string>, b: seq<string>)
    ensures QuoteAll(a + b) == QuoteAll(a) + QuoteAll(b)
  {
  }

  lemma OwnWords()
    ensures QuoteAll(["rototo", "resolve"]) == ["rototo", "resolve"]
    ensures ShellQuote("--variable") == "--variable" && ShellQuote("--context") == "--context"
  {
    assert AllSafe("rototo") && AllSafe("resolve");
    assert AllSafe("--variable") && AllSafe("--context");
  }

  lemma HeadWords(source: string, id: string)
    ensures QuoteAll(["rototo", "resolve", source, "--variable", id])
         == ["rototo", "resolve", ShellQuote(source)] + ["--variable", ShellQuote(id)]
  {
    OwnWords();
    assert QuoteAll(["rototo", "resolve"])[0] == ShellQuote("rototo");
    assert QuoteAll(["rototo", "resolve"])[1] == ShellQuote("resolve");
  }

  lemma ContextStep(args: seq<string>, i: nat)
    requires i < |args|
    ensures QuoteAll(ContextWords(args[..i + 1])) ==
            QuoteAll(ContextWords(args[..i])) + ["--context", ShellQuote(args[i])]
  {
    OwnWords();
    assert args[..i + 1][..i] == args[..i];
    QuoteConcat(ContextWords(args[..i]), ["--context", args[i]]);
  }

  /** What the shell reads from the rendered command is the command's own words. */
  method RenderCommand(cli: Cli, source: string, id: string, context: Json, form: ContextForm) returns (text: string)
    ensures Words(text, None) == Some(CommandWords(cli, source, id, context, form))
  {
    HeadWords(source, id);
    var parts := ["rototo", "resolve", ShellQuote(source)] + ["--variable", ShellQuote(id)];
    var args := ArgumentsFor(cli, context, form);
    ghost var head := QuoteAll(["rototo", "resolve", source, "--variable", id]);
    for i := 0 to |args|
      invariant parts == head + QuoteAll(ContextWords(args[..i]))
    {
      ContextStep(args, i);
      Append(head, QuoteAll(ContextWords(args[..i])), ["--context", ShellQuote(args[i])]);
      parts := parts + ["--context", ShellQuote(args[i])];
    }
    assert args[..|args|] == args;
    QuoteConcat(["rototo", "resolve", source, "--variable", id], ContextWords(args));
    text := Text.Join(parts, ' ');
    ShellReadsWords(CommandWords(cli, source, id, context, form));
  }

  /** The package source, the variable and the `--context` words of a command line. */
  datatype Invocation = Invocation(source: string, id: string, contexts: seq<string>)

  /** A word the argument parser takes for an option; a lone dash is an ordinary word. */
  predicate IsFlag(word: string) {
    |word| > 1 && word[0] == '-'
  }

  function ReadCommand(words: seq<string>): Option<Invocation> {
    if |words| >= 5 && words[0] == "rototo" && words[1] == "resolve" && !IsFlag(words[2])
       && words[3] == "--variable" && !IsFlag(words[4]) then
      match ReadContexts(words[5..])
      case None => None
      case Some(contexts) => Some(Invocation(words[2], words[4], contexts))
    else None
  }

  /** Each `--context` takes the next word, which must not look like an option. */
  function ReadContexts(words: seq<string>): Option<seq<string>> {
    if |words| == 0 then Some([])
    else if |words| == 1 || words[0] != "--context" || IsFlag(words[1]) then None
    else
      match ReadContexts(words[2..])
      case None => None
      case Some(rest) => Some([words[1]] + rest)
  }

  lemma {:induction false} ContextWordsRead(args: seq<string>)
    ensures ReadContexts(ContextWords(args)) == if exists a :: a in args && IsFlag(a) then None else Some(args)
  {
    if |args| > 0 {
      var n := |args| - 1;
      ContextWordsRead(args[..n]);
      PairAppends(ContextWords(args[..n]), args[n]);
      assert args == args[..n] + [args[n]];
    }
  }

  lemma {:induction false} PairAppends(words: seq<string>, last: string)
    ensures ReadContexts(words + ["--context", last]) ==
            if ReadContexts(words).None? || IsFlag(last) then None else Some(ReadContexts(words).value + [last])
    decreases |words|
  {
    var more := words + ["--context", last];
    if |words| == 0 {
      assert more == ["--context", last] && more[2..] == [];
      var none: seq<string> := [];
      assert ReadContexts(words) == Some(none);
      assert [last] + none == none + [last];
    } else if |words| == 1 {
      assert more[1] == "--context" && IsFlag(more[1]);
    } else {
      assert more[2..] == words[2..] + ["--context", last];
      PairAppends(words[2..], last);
      if ReadContexts(words[2..]).Some? {
        Append([words[1]], ReadContexts(words[2..]).value, [last]);
      }
    }
  }

  predicate Dashed(key: string) {
    "-" <= key
  }

  /** With clean keys, some argument looks like an option exactly when some top-level
      key starts with a dash. */
  lemma FlagsAreDashedKeys(cli: Cli, context: Json)
    requires context.Object? && CleanKeys(context)
    ensures (exists a :: a in ArgumentsFor(cli, context, PathForm) && IsFlag(a)) <==>
            exists k :: k in context.fields && Dashed(k)
  {
    var args := ArgumentsFor(cli, context, PathForm);
    if a :| a in args && IsFlag(a) {
      var k := ArgumentKey(cli, context, a);
      assert k in context.fields && Dashed(k);
    }
    if k :| k in context.fields && Dashed(k) {
      var a := KeyArgument(cli, context, k);
      assert IsFlag(a);
    }
  }

  lemma JsonIsNoFlag(cli: Cli, context: Json)
    requires Faithful(cli) && context.Object?
    ensures forall a | a in ArgumentsFor(cli, context, JsonForm) :: !IsFlag(a)
  {
  }

  /** When the printed command, split by a shell and read by the CLI, resolves the same
      variable of the same package in the same context: neither the source nor the id
      looks like an option, and the JSON form is used or the keys are clean and no
      top-level one starts with a dash. */
  lemma CommandRoundTrip(cli: Cli, source: string, id: string, context: Json, form: ContextForm, text: string)
    requires Faithful(cli) && context.Object?
    requires form.PathForm? ==> forall part | part in ArgumentsFor(cli, context, form) :: IsAssignment(part)
    requires Words(text, None) == Some(CommandWords(cli, source, id, context, form))
    ensures ComesBack(cli, source, id, context, ReadCommand(Words(text, None).value)) <==>
            && !IsFlag(source) && !IsFlag(id)
            && (form.JsonForm? || (CleanKeys(context) && forall k | k in context.fields :: !Dashed(k)))
  {
    var args := ArgumentsFor(cli, context, form);
    ContextWordsRead(args);
    assert CommandWords(cli, source, id, context, form)[5..] == ContextWords(args);
    if form.JsonForm? {
      JsonFormRebuilds(cli, context);
      JsonIsNoFlag(cli, context);
    } else {
      PathFormRebuildsExactly(cli, context);
      if CleanKeys(context) {
        FlagsAreDashedKeys(cli, context);
      }
    }
  }

  ghost predicate ComesBack(cli: Cli, source: string, id: string, context: Json, read: Option<Invocation>) {
    && read.Some? && read.value.source == source && read.value.id == id
    && ParseFrom(cli, EMPTY, read.value.contexts) == Success(context)
  }

  /** `{"-x": 1}` is printed as `--context -x=1`, which the argument parser refuses. */
  lemma DashedKeyRefused(cli: Cli, source: string, id: string)
    requires Faithful(cli)
    ensures var context := Object(map["-x" := Number(1)]);
            && CleanKeys(context)
            && ReadCommand(CommandWords(cli, source, id, context, PathForm)).None?
  {
    var context := Object(map["-x" := Number(1)]);
    var args := ArgumentsFor(cli, context, PathForm);
    assert "-x" in context.fields && Dashed("-x");
    FlagsAreDashedKeys(cli, context);
    ContextWordsRead(args);
    assert CommandWords(cli, source, id, context, PathForm)[5..] == ContextWords(args);
  }
}
