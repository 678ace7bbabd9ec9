/** The line protocol: the command values a client line turns into, the
    errors parsing can report, the two-level parser that reads
    `player name <text>` and `player list`, and the text the writer sends
    for an answer. */
module Network {
  import opened Text
  import Game

  /** The server's error type. Parsing only ever produces ParserError; the
      other kinds wrap transport and channel failures, carried here by their
      description text. */
  datatype DurakError =
    | IOError(description: string)
    | ChannelSendError(message: string)
    | ChannelRecvError(message: string)
    | ParserError(message: string)

  /** The crate's `Result<T>`: a value or a DurakError, usable with `:-`
      the way the source uses `?`. */
  datatype Result<+T> = Ok(value: T) | Err(error: DurakError) {
    predicate IsFailure() {
      Err?
    }

    function PropagateFailure<U>(): Result<U>
      requires Err?
    {
      Err(error)
    }

    function Extract(): T
      requires Ok?
    {
      value
    }
  }

  datatype PlayerCommand = Name(name: string) | List

  datatype Command = Player(command: PlayerCommand)

  /** What the server sends back to a client. */
  datatype Answer = PlayerList(players: seq<Game.Player>)

  const PlayerTail := "player tail"
  const UnknownCommand := "unknown command "
  const PlayerNameTail := "player name tail"
  const PlayerCommandUnknown := "player command unknown"

  /** The messages of the `None` arms that follow the first `parts.next()`.
      `splitn` always yields a first piece, so no line reaches them. */
  const NoCommand := "no command"
  const PlayerNoCommand := "player no command"

  /** `PlayerCommand::parse`: trim, split once on a space, dispatch on the
      sub-verb. */
  function ParsePlayerCommand(line: string): (r: Result<PlayerCommand>)
    ensures r.Err? ==> r.error == ParserError(PlayerNameTail)
                       || r.error == ParserError(PlayerCommandUnknown)
  {
    var (verb, rest) := SplitOnce(Trim(line), ' ');
    if verb == "name" then
      match rest
      case Some(name) => Ok(Name(name))
      case None => Err(ParserError(PlayerNameTail))
    else if verb == "list" then
      Ok(List)
    else
      Err(ParserError(PlayerCommandUnknown))
  }

  /** `Command::parse`: trim, split once on a space, and hand the tail of a
      `player` line to the sub-parser, whose error is passed on unchanged. */
  function ParseCommand(line: string): (r: Result<Command>)
    ensures r.Err? ==> || r.error == ParserError(PlayerTail)
                       || r.error == ParserError(PlayerNameTail)
                       || r.error == ParserError(PlayerCommandUnknown)
                       || (r.error.ParserError? && |r.error.message| >= |UnknownCommand|
                           && r.error.message[..|UnknownCommand|] == UnknownCommand)
  {
    var (verb, rest) := SplitOnce(Trim(line), ' ');
    if verb == "player" then
      match rest
      case Some(tail) =>
        var command :- ParsePlayerCommand(tail);
        Ok(Player(command))
      case None => Err(ParserError(PlayerTail))
    else
      Err(ParserError(UnknownCommand + verb))
  }

  /** A name the parser can deliver: non-empty and not ending in whitespace
      (the line's trailing whitespace is always trimmed away). */
  predicate CanonicalName(n: string) {
    n != [] && !IsWhitespace(n[|n| - 1])
  }

  predicate WellFormed(c: Command) {
    c.command.Name? ==> CanonicalName(c.command.name)
  }

  /** The line a client sends for a command, as the test client writes
      `player name Kekse`. */
  function FormatCommand(c: Command): (r: string)
    ensures |r| > 7 && r[..7] == "player "
    ensures '\n' in r <==> c.command.Name? && '\n' in c.command.name
  {
    match c
    case Player(Name(n)) => "player name " + n
    case Player(List) => "player list"
  }

  /** Where a line is a known verb (no spaces, no whitespace at its ends)
      followed by a space and a blank rest, trimming leaves the bare verb. */
  lemma VerbLineBlank(v: string, t: string)
    requires v != [] && Trimmed(v) && ' ' !in v
    requires AllWhitespace(t)
    ensures SplitOnce(Trim(v + " " + t), ' ') == (v, None)
  {
    var st := [' '] + t;
    assert v + " " + t == v + st;
    assert AllWhitespace(st);
    BareVerb(v, st);
  }

  /** Where a line is a known verb followed by a space and a rest that is
      not blank, the tail is that rest without its trailing whitespace. */
  lemma VerbLineTail(v: string, t: string)
    requires v != [] && Trimmed(v) && ' ' !in v
    requires !AllWhitespace(t)
    ensures SplitOnce(Trim(v + " " + t), ' ') == (v, Some(TrimEnd(t)))
  {
    assert Trim(v + " " + t) == v + ([' '] + TrimEnd(t)) by {
      assert v + " " + t == v + ([' '] + t);
      TrimAfterWord(v, [' '] + t);
      TrimEndCons(' ', t);
    }
    SplitAfterWordTail(v, TrimEnd(t));
  }

  lemma SplitAfterWordTail(v: string, x: string)
    requires ' ' !in v
    ensures SplitOnce(v + ([' '] + x), ' ') == (v, Some(x))
  {
    assert v + ([' '] + x) == v + [' '] + x;
    SplitOnceUnique(v, ' ', x);
  }

  lemma VerbLine(v: string, t: string)
    requires v != [] && Trimmed(v) && ' ' !in v
    ensures AllWhitespace(t) ==> SplitOnce(Trim(v + " " + t), ' ') == (v, None)
    ensures !AllWhitespace(t) ==> SplitOnce(Trim(v + " " + t), ' ') == (v, Some(TrimEnd(t)))
  {
    if AllWhitespace(t) {
      VerbLineBlank(v, t);
    } else {
      VerbLineTail(v, t);
    }
  }

  /** A bare verb with only whitespace after it has no tail. */
  lemma BareVerb(v: string, w: string)
    requires v != [] && Trimmed(v) && ' ' !in v
    requires AllWhitespace(w)
    ensures SplitOnce(Trim(v + w), ' ') == (v, None)
  {
    TrimAfterWord(v, w);
    TrimEndAllWhitespace(w);
    assert v + [] == v;
    SplitOnceAfterWord(v, ' ', []);
  }

  /** Surrounding whitespace is irrelevant, including the line terminator
      that reading a line leaves in place. */
  lemma ParseIgnoresSurroundingWhitespace(a: string, s: string, b: string)
    requires AllWhitespace(a) && AllWhitespace(b)
    ensures ParseCommand(a + s + b) == ParseCommand(s)
    ensures ParseCommand(Trim(s)) == ParseCommand(s)
  {
    TrimSurroundingWhitespace(a, s, b);
    ParseOfTrim(a + s + b, s);
    TrimIdempotent(s);
    ParseOfTrim(Trim(s), s);
  }

  /** The top-level parser only looks at the trimmed text. */
  lemma ParseOfTrim(x: string, y: string)
    requires Trim(x) == Trim(y)
    ensures ParseCommand(x) == ParseCommand(y)
  {
  }

  /** The newline that reading a line leaves in place changes nothing. */
  lemma ParseWithNewline(line: string)
    ensures ParseCommand(line + "\n") == ParseCommand(line)
  {
    assert [] + line + "\n" == line + "\n";
    assert AllWhitespace("\n");
    ParseIgnoresSurroundingWhitespace([], line, "\n");
  }

  lemma ParsePlayerIgnoresSurroundingWhitespace(a: string, s: string, b: string)
    requires AllWhitespace(a) && AllWhitespace(b)
    ensures ParsePlayerCommand(a + s + b) == ParsePlayerCommand(s)
  {
    TrimSurroundingWhitespace(a, s, b);
  }

  /** What the top-level parser does once the verb and the tail are known:
      a `player` line hands its tail to the sub-parser. */
  lemma ParseOfPlayerTail(line: string, tail: string)
    requires SplitOnce(Trim(line), ' ') == ("player", Some(tail))
    ensures ParsePlayerCommand(tail).Ok? ==> ParseCommand(line) == Ok(Player(ParsePlayerCommand(tail).value))
    ensures ParsePlayerCommand(tail).Err? ==> ParseCommand(line) == Err(ParsePlayerCommand(tail).error)
  {
  }

  /** The sub-parser only looks at the trimmed text. */
  lemma PlayerParseOfTrim(x: string, y: string)
    requires Trim(x) == Trim(y)
    ensures ParsePlayerCommand(x) == ParsePlayerCommand(y)
  {
  }

  /** `player <t>`: a blank tail is a missing tail, anything else is given
      to the sub-parser, and its result or its error is passed on as is. */
  lemma ParsePlayerLine(t: string)
    ensures AllWhitespace(t) ==> ParseCommand("player " + t) == Err(ParserError(PlayerTail))
    ensures !AllWhitespace(t) && ParsePlayerCommand(t).Ok? ==>
              ParseCommand("player " + t) == Ok(Player(ParsePlayerCommand(t).value))
    ensures !AllWhitespace(t) && ParsePlayerCommand(t).Err? ==>
              ParseCommand("player " + t) == Err(ParsePlayerCommand(t).error)
  {
    assert "player " + t == "player" + " " + t;
    VerbLine("player", t);
    if !AllWhitespace(t) {
      ParseOfPlayerTail("player " + t, TrimEnd(t));
      TrimOfTrimEnd(t);
      PlayerParseOfTrim(TrimEnd(t), t);
    }
  }

  /** A bare `player`, with nothing but whitespace after it. */
  lemma ParseBarePlayer(w: string)
    requires AllWhitespace(w)
    ensures ParseCommand("player" + w) == Err(ParserError(PlayerTail))
  {
    BareVerb("player", w);
  }

  /** Any first token other than `player` is reported back inside the
      error message. */
  lemma ParseUnknownVerb(s: string, v: string, rest: string)
    requires Trim(s) == v + rest
    requires ' ' !in v && v != "player"
    requires rest == [] || rest[0] == ' '
    ensures ParseCommand(s) == Err(ParserError(UnknownCommand + v))
  {
    SplitOnceAfterWord(v, ' ', rest);
  }

  /** A line that starts with another word and a space, as the test
      client's `table new Kuchen` and `game start` do, is rejected with
      that word in the message, terminated by a newline or not. */
  lemma ParseOtherVerbLine(v: string, args: string)
    requires v != [] && Trimmed(v) && ' ' !in v && v != "player"
    ensures ParseCommand(v + " " + args) == Err(ParserError(UnknownCommand + v))
    ensures ParseCommand(v + " " + args + "\n") == Err(ParserError(UnknownCommand + v))
  {
    VerbLine(v, args);
    ParseWithNewline(v + " " + args);
  }

  /** A blank line is an unknown command with an empty token: the "no
      command" error is never produced. */
  lemma ParseBlankLine(s: string)
    requires AllWhitespace(s)
    ensures ParseCommand(s) == Err(ParserError(UnknownCommand))
  {
    assert Trim(s) == [] + [];
    ParseUnknownVerb(s, [], []);
    assert UnknownCommand + [] == UnknownCommand;
  }

  /** The `None` arms after the first `parts.next()` are dead: no line gets
      the "no command" or the "player no command" error. */
  lemma ParseNeverNoCommand(s: string)
    ensures ParseCommand(s) != Err(ParserError(NoCommand))
    ensures ParsePlayerCommand(s) != Err(ParserError(PlayerNoCommand))
  {
  }

  /** Splitting is on one space character and not on whitespace: a line
      whose trimmed text has no space is a single token, even when a tab
      separates two words (`player\tlist`). */
  lemma ParseSingleToken(s: string)
    requires ' ' !in Trim(s)
    ensures Trim(s) == "player" ==> ParseCommand(s) == Err(ParserError(PlayerTail))
    ensures Trim(s) != "player" ==> ParseCommand(s) == Err(ParserError(UnknownCommand + Trim(s)))
  {
  }

  /** Two `player` lines whose tails trim alike parse alike. */
  lemma ParsePlayerLinesAlike(x: string, y: string)
    requires !AllWhitespace(x) && !AllWhitespace(y) && Trim(x) == Trim(y)
    ensures ParseCommand("player " + x) == ParseCommand("player " + y)
  {
    ParsePlayerLine(x);
    ParsePlayerLine(y);
    PlayerParseOfTrim(x, y);
  }

  /** Extra spaces between `player` and its sub-verb are absorbed by the
      sub-parser's own trim. */
  lemma ParseExtraSpaces(sp: string, t: string)
    requires AllWhitespace(sp) && !AllWhitespace(t)
    ensures ParseCommand("player " + sp + t) == ParseCommand("player " + t)
  {
    assert "player " + sp + t == "player " + (sp + t);
    assert !AllWhitespace(sp + t) by {
      var k :| 0 <= k < |t| && !IsWhitespace(t[k]);
      assert (sp + t)[|sp| + k] == t[k];
    }
    assert sp + t + [] == sp + t;
    TrimSurroundingWhitespace(sp, t, []);
    ParsePlayerLinesAlike(sp + t, t);
  }

  /** `name <t>`: everything after the first space following `name` is the
      name, leading and inner spaces kept verbatim and only trailing
      whitespace dropped; with nothing after it the name tail is missing. */
  lemma PlayerParseName(t: string)
    ensures AllWhitespace(t) ==> ParsePlayerCommand("name " + t) == Err(ParserError(PlayerNameTail))
    ensures !AllWhitespace(t) ==> ParsePlayerCommand("name " + t) == Ok(Name(TrimEnd(t)))
  {
    assert "name " + t == "name" + " " + t;
    VerbLine("name", t);
  }

  lemma PlayerParseBareName(w: string)
    requires AllWhitespace(w)
    ensures ParsePlayerCommand("name" + w) == Err(ParserError(PlayerNameTail))
  {
    BareVerb("name", w);
  }

  /** `list` is accepted on its own and whatever follows its first space. */
  lemma PlayerParseList(t: string)
    ensures ParsePlayerCommand("list") == Ok(List)
    ensures ParsePlayerCommand("list " + t) == Ok(List)
  {
    PlayerParseBareList();
    PlayerParseListTail(t);
  }

  lemma PlayerParseBareList()
    ensures ParsePlayerCommand("list") == Ok(List)
  {
    assert "list" + [] == "list";
    BareVerb("list", []);
    PlayerParseOfListVerb("list");
  }

  lemma PlayerParseListTail(t: string)
    ensures ParsePlayerCommand("list " + t) == Ok(List)
  {
    assert "list " + t == "list" + " " + t;
    VerbLine("list", t);
    PlayerParseOfListVerb("list " + t);
  }

  lemma PlayerParseOfListVerb(x: string)
    requires SplitOnce(Trim(x), ' ').0 == "list"
    ensures ParsePlayerCommand(x) == Ok(List)
  {
  }

  /** Any other sub-verb is rejected with one fixed message. */
  lemma PlayerParseUnknownVerb(s: string, v: string, rest: string)
    requires Trim(s) == v + rest
    requires ' ' !in v && v != "name" && v != "list"
    requires rest == [] || rest[0] == ' '
    ensures ParsePlayerCommand(s) == Err(ParserError(PlayerCommandUnknown))
  {
    SplitOnceAfterWord(v, ' ', rest);
  }

  /** The tail split off a trimmed string is canonical: it cannot be empty
      (the string would end in the space) and ends where the string ends. */
  lemma SplitTailOfTrimmed(x: string)
    requires Trimmed(x) && SplitOnce(x, ' ').1.Some?
    ensures CanonicalName(SplitOnce(x, ' ').1.value)
  {
    var (h, t) := SplitOnce(x, ' ');
    assert x == h + [' '] + t.value;
    assert x[|x| - 1] == t.value[|t.value| - 1];
  }

  /** A successful top-level parse came from a `player` line with a tail. */
  lemma ParsedCommandShape(s: string)
    requires ParseCommand(s).Ok?
    ensures SplitOnce(Trim(s), ' ').0 == "player"
    ensures SplitOnce(Trim(s), ' ').1.Some?
    ensures ParsePlayerCommand(SplitOnce(Trim(s), ' ').1.value) == Ok(ParseCommand(s).value.command)
  {
  }

  /** A name the sub-parser returns is the tail of a `name` line. */
  lemma ParsedNameShape(t: string)
    requires ParsePlayerCommand(t).Ok? && ParsePlayerCommand(t).value.Name?
    ensures SplitOnce(Trim(t), ' ').0 == "name"
    ensures SplitOnce(Trim(t), ' ').1 == Some(ParsePlayerCommand(t).value.name)
  {
  }

  /** Every command the parser produces is well formed. */
  lemma ParsedCommandWellFormed(s: string)
    requires ParseCommand(s).Ok?
    ensures WellFormed(ParseCommand(s).value)
  {
    ParsedCommandShape(s);
    var tail := SplitOnce(Trim(s), ' ').1.value;
    if ParseCommand(s).value.command.Name? {
      ParsedNameShape(tail);
      SplitTailOfTrimmed(Trim(tail));
    }
  }

  /** `name <n>` gives back `n` when `n` is canonical. */
  lemma PlayerParseCanonicalName(n: string)
    requires CanonicalName(n)
    ensures ParsePlayerCommand("name " + n) == Ok(Name(n))
  {
    assert !AllWhitespace(n) by {
      assert !IsWhitespace(n[|n| - 1]);
    }
    TrimEndNoTrailing(n);
    PlayerParseName(n);
  }

  /** `player name <n>` gives back `n` when `n` is canonical. */
  lemma FormatNameRoundTrip(n: string)
    requires CanonicalName(n)
    ensures ParseCommand("player name " + n) == Ok(Player(Name(n)))
  {
    var t := "name " + n;
    assert "player name " + n == "player " + t;
    assert !AllWhitespace(t) by {
      assert t[0] == 'n';
    }
    PlayerParseCanonicalName(n);
    ParsePlayerLine(t);
  }

  lemma FormatListRoundTrip()
    ensures ParseCommand("player list") == Ok(Player(List))
  {
    assert "player list" == "player " + "list";
    assert "list"[0] == 'l';
    ParsePlayerLine("list");
    PlayerParseList([]);
  }

  lemma FormatWellFormed(c: Command)
    requires WellFormed(c)
    ensures ParseCommand(FormatCommand(c)) == Ok(c)
  {
    match c.command
    case Name(n) =>
      assert FormatCommand(c) == "player name " + n;
      FormatNameRoundTrip(n);
    case List =>
      assert FormatCommand(c) == "player list";
      FormatListRoundTrip();
  }

  lemma FormatIllFormed(c: Command)
    requires !WellFormed(c)
    ensures ParseCommand(FormatCommand(c)) != Ok(c)
  {
    if ParseCommand(FormatCommand(c)) == Ok(c) {
      ParsedCommandWellFormed(FormatCommand(c));
    }
  }

  /** Formatting then parsing gives the command back exactly when it is
      well formed, also with the newline a client sends after it. */
  lemma ParseFormatRoundTrip(c: Command)
    ensures ParseCommand(FormatCommand(c)) == Ok(c) <==> WellFormed(c)
    ensures ParseCommand(FormatCommand(c) + "\n") == Ok(c) <==> WellFormed(c)
  {
    ParseWithNewline(FormatCommand(c));
    if WellFormed(c) {
      FormatWellFormed(c);
    } else {
      FormatIllFormed(c);
    }
  }

  /** Parsing is a normal form: what parses, re-formatted, parses to the
      same command. */
  lemma ParseNormalForm(s: string)
    requires ParseCommand(s).Ok?
    ensures ParseCommand(FormatCommand(ParseCommand(s).value)) == ParseCommand(s)
  {
    ParsedCommandWellFormed(s);
    ParseFormatRoundTrip(ParseCommand(s).value);
  }

  /** The tail of a split is a verbatim piece of the split string. */
  lemma SplitTailOccurs(x: string)
    requires SplitOnce(x, ' ').1.Some?
    ensures Occurs(SplitOnce(x, ' ').1.value, x)
  {
    var (h, t) := SplitOnce(x, ' ');
    assert x[|h| + 1..] == t.value;
    assert SliceAt(x, |h| + 1, t.value);
  }

  /** The trimmed text is a verbatim piece of the original. */
  lemma TrimOccurs(x: string)
    ensures Occurs(Trim(x), x)
  {
    var i :| Framed(x, i, Trim(x));
    assert SliceAt(x, i, Trim(x));
  }

  /** A parsed name is a verbatim piece of the line it came from. */
  lemma ParsedNameOccurs(line: string)
    requires ParseCommand(line).Ok? && ParseCommand(line).value.command.Name?
    ensures Occurs(ParseCommand(line).value.command.name, line)
  {
    var n := ParseCommand(line).value.command.name;
    ParsedCommandShape(line);
    var outer := Trim(line);
    var tail := SplitOnce(outer, ' ').1.value;
    ParsedNameShape(tail);
    var inner := Trim(tail);
    SplitTailOccurs(inner);
    TrimOccurs(tail);
    SplitTailOccurs(outer);
    TrimOccurs(line);
    OccursTransitive(n, inner, tail);
    OccursTransitive(n, tail, outer);
    OccursTransitive(n, outer, line);
  }

  /** A line as `read_line` hands it over: no line break except, possibly,
      one at its very end (the last line of a stream may have none). */
  predicate DeliveredLine(line: string) {
    forall k :: 0 <= k < |line| - 1 ==> line[k] != '\n'
  }

  /** A delivered line without its terminating newline, if it has one. */
  function LineBody(line: string): (body: string)
    requires DeliveredLine(line)
    ensures '\n' !in body
    ensures line == body || line == body + "\n"
  {
    if line != [] && line[|line| - 1] == '\n' then
      var body := line[..|line| - 1];
      assert forall k :: 0 <= k < |body| ==> body[k] == line[k];
      assert line == body + "\n";
      body
    else
      assert forall k :: 0 <= k < |line| ==> line[k] != '\n';
      line
  }

  /** A delivered line parses like its body. */
  lemma ParseOfLineBody(line: string)
    requires DeliveredLine(line)
    ensures ParseCommand(line) == ParseCommand(LineBody(line))
  {
    ParseWithNewline(LineBody(line));
  }

  /** A name parsed from text without line breaks has none either: it is a
      verbatim piece of that text. */
  lemma ParsedNameOfBreakFree(line: string)
    requires '\n' !in line
    requires ParseCommand(line).Ok? && ParseCommand(line).value.command.Name?
    ensures '\n' !in ParseCommand(line).value.command.name
  {
    ParsedNameOccurs(line);
    OccursExcludes(ParseCommand(line).value.command.name, line, '\n');
  }

  /** A name read from one line never holds a line break: reading a line
      leaves at most its terminating newline, and trimming removes that. */
  lemma ParsedNameHasNoNewline(line: string)
    requires DeliveredLine(line)
    requires ParseCommand(line).Ok? && ParseCommand(line).value.command.Name?
    ensures '\n' !in ParseCommand(line).value.command.name
  {
    ParseOfLineBody(line);
    ParsedNameOfBreakFree(LineBody(line));
  }

  /** One line of a player listing: a tab, the name, a newline. */
  function PlayerLine(p: Game.Player): string {
    "\t" + p.name + "\n"
  }

  /** The text the writer emits for a player list: one line per player, in
      list order. */
  function RenderPlayers(players: seq<Game.Player>): (r: string)
    ensures |r| >= 2 * |players|
    ensures players == [] <==> r == []
    ensures players != [] ==> r[0] == '\t' && r[|r| - 1] == '\n'
  {
    if players == [] then [] else PlayerLine(players[0]) + RenderPlayers(players[1..])
  }

  /** The writer's dispatch on the answer it receives; its text reads back
      as the listed names exactly when none holds a line break. */
  function Render(a: Answer): (r: string)
    ensures DecodePlayerList(r) == Some(Names(a.players)) <==> NewlineFree(a.players)
  {
    match a
    case PlayerList(players) =>
      RenderDecodeRoundTrip(players);
      RenderPlayers(players)
  }

  function Names(players: seq<Game.Player>): (names: seq<string>)
    ensures |names| == |players|
    ensures forall i :: 0 <= i < |players| ==> names[i] == players[i].name
  {
    if players == [] then [] else [players[0].name] + Names(players[1..])
  }

  predicate NewlineFree(players: seq<Game.Player>) {
    forall i :: 0 <= i < |players| ==> '\n' !in players[i].name
  }

  /** Reads a player listing back: tab-led, newline-terminated lines, one
      name each. */
  function DecodePlayerList(s: string): (r: Option<seq<string>>)
    ensures r.Some? ==> forall n :: n in r.value ==> '\n' !in n
    decreases |s|
  {
    if s == [] then
      Some([])
    else if s[0] != '\t' then
      None
    else
      match SplitOnce(s[1..], '\n')
      case (name, None) => None
      case (name, Some(rest)) =>
        match DecodePlayerList(rest)
        case None => None
        case Some(names) => Some([name] + names)
  }

  /** Rendering a player list is lossless exactly when no name holds a line
      break: then decoding gives every name back, in order. */
  lemma {:induction false} RenderDecodeRoundTrip(players: seq<Game.Player>)
    ensures DecodePlayerList(RenderPlayers(players)) == Some(Names(players)) <==> NewlineFree(players)
  {
    if NewlineFree(players) {
      RenderDecodes(players);
    }
  }

  lemma {:induction false} RenderDecodes(players: seq<Game.Player>)
    requires NewlineFree(players)
    ensures DecodePlayerList(RenderPlayers(players)) == Some(Names(players))
  {
    if players != [] {
      var p := players[0];
      var rest := RenderPlayers(players[1..]);
      var s := PlayerLine(p) + rest;
      assert s[1..] == p.name + ['\n'] + rest;
      SplitOnceUnique(p.name, '\n', rest);
      RenderDecodes(players[1..]);
      assert Names(players) == [p.name] + Names(players[1..]);
    }
  }

  /** The writer's output for a concatenated list is the concatenation of
      its outputs: the lines follow the list order. */
  lemma {:induction false} RenderConcat(a: seq<Game.Player>, b: seq<Game.Player>)
    ensures RenderPlayers(a + b) == RenderPlayers(a) + RenderPlayers(b)
    decreases |a|
  {
    if a == [] {
      assert a + b == b;
    } else {
      assert (a + b)[0] == a[0];
      assert (a + b)[1..] == a[1..] + b;
      RenderConcat(a[1..], b);
    }
  }

  /** Names set through `player name` from lines that a reader delivers,
      terminated or not, are listed back losslessly. */
  lemma NamedPlayersListLosslessly(lines: seq<string>, players: seq<Game.Player>)
    requires |lines| == |players|
    requires forall i :: 0 <= i < |lines| ==> DeliveredLine(lines[i])
    requires forall i :: 0 <= i < |lines| ==> ParseCommand(lines[i]) == Ok(Player(Name(players[i].name)))
    ensures DecodePlayerList(Render(PlayerList(players))) == Some(Names(players))
  {
    forall i | 0 <= i < |players|
      ensures '\n' !in players[i].name
    {
      ParsedNameHasNoNewline(lines[i]);
    }
  }
}
