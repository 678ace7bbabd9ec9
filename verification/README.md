# Durak server: inbound command parser and player-list rendering

This project models, in Dafny, the text protocol core of the Durak card-game
server: the parser that turns one line read from a client connection into a
`Command` (`Command::parse` and `PlayerCommand::parse` in `src/network.rs`),
the `DurakError::ParserError` values it reports, and the text the connection's
writer produces for a `PlayerList` answer.

The parser works in two levels:

- it trims the line;
- it splits it once on the first `' '` (Rust's `splitn(2, ' ')`, which always
  yields a first piece);
- a `player` verb hands the rest to the sub-parser, which trims again, splits
  again and accepts `name <text>` and `list`.

Every failure is a `ParserError` with a fixed message or with the offending
token appended (`unknown command <token>`).

Modules:

- `Text` (`text.dfy`): Rust's `str::trim` and `str::trim_end` over an explicit
  whitespace predicate (the Unicode White_Space list that `char::is_whitespace`
  tests), and `splitn(2, sep)` as `SplitOnce`, with characterisation and
  uniqueness lemmas.
- `Network` (`network.dfy`), following src/network.rs:
  - `DurakError`, the crate's `Result`, `Command`, `PlayerCommand` and
    `Answer`;
  - the two parsers;
  - `FormatCommand`, the line a client sends for a command (as utils/test.py
    writes `player name Kekse`), which serves as the parser's inverse in the
    round-trip lemmas;
  - the writer's rendering of an `Answer` (one `\t<name>\n` line per listed
    player);
  - `DecodePlayerList`, a reader for that text, which serves as the
    rendering's inverse.
- `Game` (`game.dfy`): the `Player` record, reduced to its name.

Facts of the code that shape the model:

- The parser splits on a single `' '` (src/network.rs:163, 181). A tab between
  two words does not separate them, so `player\tlist` is one unknown token.
- `player` is the only top-level verb (src/network.rs:166). The sub-verbs are
  `name` and `list` (src/network.rs:184, 190).
- So the `table new Kuchen`, `table list`, `table join <hash>` and
  `game start` lines that utils/test.py:11-17 sends are reported as
  `unknown command table` and `unknown command game`
  (`Network.ParseOtherVerbLine`).
- A listed player is written as `\t<name>\n` (src/network.rs:108).
- `read_line` hands over each line with its newline. The last line of a stream
  may have none (src/network.rs:80-84). Both forms reach the parser
  (`Network.DeliveredLine`).

## Model

| member | source | states |
|---|---|---|
| Text.Trim | src/network.rs:162 | the trimmed line is the slice of the input with only whitespace in front of and behind it; it does not start or end in whitespace; it is empty exactly when the line is blank |
| Text.TrimCharacterized | src/network.rs:162 | any slice of the line that has only whitespace around it and none at its own ends is the trimmed line |
| Text.TrimIdempotent | src/network.rs:162 | trimming a trimmed string changes nothing; this is why a line parses like its own trimmed text (`Network.ParseIgnoresSurroundingWhitespace`). The tail handed to the sub-parser is not trimmed at its front, which is the job of the second trim at src/network.rs:180 |
| Text.TrimSurroundingWhitespace | src/network.rs:162 | whitespace added on either side of a line does not change its trimmed text |
| Text.SplitOnce | src/network.rs:163 | the first piece has no space; there is a second piece exactly when the string has a space; the first piece, the space and the second piece put together give back the string |
| Text.SplitOnceUnique | src/network.rs:163 | the split happens at the first space: for a space-free head, head + space + tail splits into exactly that head and tail |
| Network.ParsePlayerCommand | src/network.rs:178-195 | the sub-parser's only errors are ParserError "player name tail" and ParserError "player command unknown" |
| Network.ParseCommand | src/network.rs:160-176 | the parser's only errors are ParserError values: "player tail", the two sub-parser messages passed on unchanged, or a message starting with "unknown command " |
| Network.ParseIgnoresSurroundingWhitespace | src/network.rs:161-163 | whitespace around a line never changes its parse, and a line parses like its trimmed text |
| Network.ParseWithNewline | src/network.rs:79-84 | the newline that reading a line leaves at its end does not change the parse |
| Network.ParsePlayerLine | src/network.rs:166-170 | `player ` followed by a blank rest is the "player tail" error; followed by anything else, it is the sub-parser's result on that rest, with an error passed on unchanged |
| Network.ParseBarePlayer | src/network.rs:169 | `player` with only whitespace after it is the "player tail" error |
| Network.ParseUnknownVerb | src/network.rs:172 | a trimmed line whose first space-free token is not `player` is the error "unknown command " followed by that token |
| Network.ParseOtherVerbLine | utils/test.py:11-17 | a line made of another word, a space and anything after it is "unknown command " followed by that word, with or without its newline |
| Network.ParseBlankLine | src/network.rs:165-173 | a blank line is "unknown command " with an empty token |
| Network.ParseNeverNoCommand | src/network.rs:173-192 | no line gets the "no command" error, and no tail gets "player no command" |
| Network.ParseSingleToken | src/network.rs:163-172 | a trimmed line without a space is one token even when a tab separates two words: a bare `player` is "player tail", anything else is "unknown command" with the whole token |
| Network.ParseExtraSpaces | src/network.rs:180-181 | extra whitespace between `player` and the sub-verb does not change the parse |
| Network.PlayerParseName | src/network.rs:184-188 | `name ` followed by a blank rest is the "player name tail" error; otherwise the name is the whole rest with only its trailing whitespace dropped, so leading and inner spaces are kept |
| Network.PlayerParseCanonicalName | src/network.rs:184-186 | `name ` followed by a non-empty name that does not end in whitespace gives exactly that name |
| Network.PlayerParseBareName | src/network.rs:187 | `name` with only whitespace after it is the "player name tail" error |
| Network.PlayerParseList | src/network.rs:190 | `list`, alone or followed by a space and anything at all, is the List command |
| Network.PlayerParseUnknownVerb | src/network.rs:191 | any other space-free sub-verb is the "player command unknown" error |
| Network.ParsedCommandWellFormed | src/network.rs:160-195 | every parsed name is non-empty and does not end in whitespace |
| Network.FormatCommand | utils/test.py:10 | a client line starts with `player ` and holds a line break exactly when the command's name does |
| Network.ParseFormatRoundTrip | utils/test.py:10 | parsing the client's line for a command gives that command back, with or without the trailing newline, exactly when its name is non-empty and does not end in whitespace |
| Network.ParseNormalForm | src/network.rs:160-195 | a parsed command, formatted again as a client line, parses to the same command |
| Network.ParsedNameOccurs | src/network.rs:186 | a parsed name is a verbatim, contiguous piece of the line it came from |
| Network.ParsedNameHasNoNewline | src/network.rs:79-86 | a name parsed from a line as `read_line` delivers it, with or without its terminating newline, has no line break |
| Network.RenderPlayers | src/network.rs:104-111 | the rendering of a non-empty list starts with a tab and ends with a newline, is empty only for the empty list, and has at least two characters per player |
| Network.Render | src/network.rs:102-111 | the text written for an answer reads back as the listed names, in order, exactly when no name holds a line break |
| Network.RenderDecodeRoundTrip | src/network.rs:104-111 | reading the rendered list back gives every name in order exactly when no name holds a line break |
| Network.RenderConcat | src/network.rs:106-111 | the rendering of two lists joined is the two renderings joined, so the lines follow list order |
| Network.ParseOfLineBody | src/network.rs:79-84 | a delivered line parses like its text without the terminating newline |
| Network.NamedPlayersListLosslessly | src/network.rs:79-111 | names set by `player name` lines that a reader delivers, terminated or not, are listed back without loss |

## Left out

- `Server::new` and `Server::listen` (src/network.rs:56-138) are left out. They are socket I/O and threads: the accept thread, the per-connection reader and writer threads, the `try_recv` polling loop and the one-millisecond sleep.
- The reader thread's handling of a parse result is left out. It prints errors and forwards commands over a channel (src/network.rs:84-92); only the parse itself is modelled.
- The writer's flush after every line is left out. `Network.RenderPlayers` models the concatenated text the writer emits.
- `DuplexChannel` (src/network.rs:203-229) is left out. It is a wrapper around standard-library channels.
- The `From` conversions into `DurakError` (src/network.rs:141-157) are left out. They wrap standard-library error descriptions. `DurakError.IOError` carries a description string in place of an `io::Error`.
- `Answer::to_string` (src/network.rs:197-200) is left out. It always returns the constant `"kekse"` and is not used by the writer.
- The random `ClientHash` of a new connection (src/network.rs:71) is left out because it is randomness.
- `Game::handle_command`, which turns a command into an answer, is not part of this model. Its definition is not among the source files.
- src/server.rs is left out. It is a blocking TCP line logger: socket I/O only.
- src/main.rs is left out. It is process start-up.
- src/rules.rs is left out. Its only action does nothing, and its state types are not defined in the source files.
- The card test in src/lib.rs is left out. Its card types are not defined in the source files.
- `Player::new` (src/game.rs:6-8) is not a separate member. It is the `Game.Player` constructor.
- Text.IsWhitespace: strings are sequences of Unicode scalar values, so UTF-8 byte handling is not modelled. Whitespace is the fixed White_Space list and is not taken from a Unicode table at run time.
