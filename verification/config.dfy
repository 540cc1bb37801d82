/** The configuration and its text file. */
module Configs {
  import opened CBytes
  import opened TextFiles

  const LINE_BUFFER_SIZE: nat := 1024
  const FIELD_ROOM: nat := 1023

  datatype Config = Config(
    root: Bytes, maxConnections: int, port: int, logLevel: int, enableAuth: int, authFile: Bytes)

  /** The parameter names. */
  datatype Key = RootDirectory | MaxConnections | Port | LogLevel | EnableAuth | AuthFile

  function Name(k: Key): (r: Bytes)
    ensures |r| == match k
                   case RootDirectory => 14
                   case MaxConnections => 15
                   case Port => 4
                   case LogLevel => 9
                   case EnableAuth => 11
                   case AuthFile => 9
  {
    match k
    case RootDirectory => Ascii("root_directory")
    case MaxConnections => Ascii("max_connections")
    case Port => Ascii("port")
    case LogLevel => Ascii("log_level")
    case EnableAuth => Ascii("enable_auth")
    case AuthFile => Ascii("auth_file")
  }

  predicate PlainByte(b: Byte) {
    b != EQUALS && b != NEWLINE && b != NUL && b != SPACE && b != HASH_SIGN
  }

  lemma NameIsPlain(k: Key)
    ensures forall i :: 0 <= i < |Name(k)| ==> PlainByte(Name(k)[i])
  {
    match k {
      case RootDirectory => LettersArePlain("root_directory");
      case MaxConnections => LettersArePlain("max_connections");
      case Port => LettersArePlain("port");
      case LogLevel => LettersArePlain("log_level");
      case EnableAuth => LettersArePlain("enable_auth");
      case AuthFile => LettersArePlain("auth_file");
    }
  }

  lemma LettersArePlain(s: string)
    requires forall i :: 0 <= i < |s| ==> 95 <= s[i] as int <= 122
    ensures forall i :: 0 <= i < |s| ==> PlainByte(Ascii(s)[i])
  {
  }

  lemma NamesDiffer(j: Key, k: Key)
    ensures Name(j) == Name(k) ==> j == k
  {
    assert "log_level"[0] == 'l' && "auth_file"[0] == 'a';
    assert Name(LogLevel)[0] == 108 && Name(AuthFile)[0] == 97;
  }

  function KeyOf(name: Bytes): Option<Key> {
    if name == Name(RootDirectory) then Some(RootDirectory)
    else if name == Name(MaxConnections) then Some(MaxConnections)
    else if name == Name(Port) then Some(Port)
    else if name == Name(LogLevel) then Some(LogLevel)
    else if name == Name(EnableAuth) then Some(EnableAuth)
    else if name == Name(AuthFile) then Some(AuthFile)
    else None
  }

  lemma KeyOfName(k: Key)
    ensures KeyOf(Name(k)) == Some(k)
  {
    hide Name;
    forall j: Key {
      NamesDiffer(j, k);
    }
  }

  function Assign(c: Config, k: Key, value: Bytes): Config {
    match k
    case RootDirectory => c.(root := Cut(value, FIELD_ROOM))
    case MaxConnections => c.(maxConnections := Atoi(value))
    case Port => c.(port := Atoi(value))
    case LogLevel => c.(logLevel := Atoi(value))
    case EnableAuth => c.(enableAuth := Atoi(value))
    case AuthFile => c.(authFile := Cut(value, FIELD_ROOM))
  }

  /** set_config_value: an unknown name changes nothing. */
  function WithValue(c: Config, name: Bytes, value: Bytes): Config {
    match KeyOf(name) case None => c case Some(k) => Assign(c, k, value)
  }

  function TrimSpaces(s: Bytes): (r: Bytes)
    ensures |r| <= |s| && (r != [] ==> r[0] != SPACE)
    ensures forall b :: b in r ==> b in s
  {
    if s != [] && s[0] == SPACE then TrimSpaces(s[1..]) else s
  }

  /** The name and the value on a line, if it has both. */
  function ParseLine(text: Bytes): Option<(Bytes, Bytes)>
    requires text != []
  {
    if text[0] == HASH_SIGN || text[0] == NEWLINE then None
    else match StrTok(Content(text), EQUALS)
      case None => None
      case Some(key) =>
        match StrTok(key.rest, EQUALS)
        case None => None
        case Some(value) => Some((TrimSpaces(key.text), TrimSpaces(value.text)))
  }

  function AfterLine(c: Config, text: Bytes): Config
    requires text != []
  {
    match ParseLine(text) case None => c case Some(pair) => WithValue(c, pair.0, pair.1)
  }

  /** Loading is a fold over the lines: the last assignment of a name wins. */
  function LoadFrom(c: Config, file: Bytes): Config
    decreases |file|
  {
    match Fgets(file, LINE_BUFFER_SIZE)
    case None => c
    case Some(line) => LoadFrom(AfterLine(c, line.text), line.rest)
  }

  function Defaults(cwd: Option<Bytes>): Config {
    Config(Cut(match cwd case Some(d) => d case None => [DOT], FIELD_ROOM), 100, 8080, 1, 0, Ascii("users.auth"))
  }

  // Saving

  const TITLE: Bytes := Ascii("# CileServer Configuration File")

  function PrintLine(k: Key, value: Bytes): Bytes {
    Name(k) + [EQUALS] + value
  }

  function PrintFrom(c: Config, rest: Bytes): Bytes {
    PrintLine(RootDirectory, c.root) + [NEWLINE] + (
      PrintLine(MaxConnections, PrintInt(c.maxConnections)) + [NEWLINE] + (
        PrintLine(Port, PrintInt(c.port)) + [NEWLINE] + (
          PrintLine(LogLevel, PrintInt(c.logLevel)) + [NEWLINE] + (
            PrintLine(EnableAuth, PrintInt(c.enableAuth)) + [NEWLINE] + (
              PrintLine(AuthFile, c.authFile) + [NEWLINE] + rest)))))
  }

  function SaveText(c: Config): Bytes {
    TITLE + [NEWLINE] + ([] + [NEWLINE] + PrintFrom(c, []))
  }

  // What survives the file

  /** A value the line of a name of n characters can carry. */
  predicate Carries(n: nat, value: Bytes) {
    && value != [] && value[0] != SPACE
    && EQUALS !in value && NEWLINE !in value && NUL !in value
    && n + 1 + |value| < LINE_BUFFER_SIZE
  }

  /** The line's own parse: the value, or nothing when it is empty. */
  lemma ParsePrinted(k: Key, value: Bytes, newline: Bytes)
    requires value == [] || Carries(|Name(k)|, value)
    requires newline == [] || newline == [NEWLINE]
    ensures ParseLine(PrintLine(k, value) + newline) == if value == [] then None else Some((Name(k), value))
  {
    hide Name;
    NameIsPlain(k);
    var name := Name(k);
    assert PlainByte(name[0]) && TrimSpaces(name) == name;
    assert EQUALS !in name && NEWLINE !in name && NUL !in name;
    var line := PrintLine(k, value);
    ContentIs(line, newline);
    StrTokField(name, EQUALS, value);
    if value != [] {
      StrTokField(value, EQUALS, []);
      assert TrimSpaces(value) == value;
    }
  }

  lemma ContentIs(line: Bytes, newline: Bytes)
    requires NUL !in line && NEWLINE !in line && (newline == [] || newline == [NEWLINE])
    ensures Content(line + newline) == line
  {
    if newline == [] {
      CStrOf(line, []);
      IndexOfUnique(line, NEWLINE, |line|);
      assert line + [] == line && line[..|line|] == line;
    } else {
      ContentOf(line);
    }
  }

  lemma PrintedAfterLine(c: Config, k: Key, value: Bytes, newline: Bytes)
    requires value == [] || Carries(|Name(k)|, value)
    requires newline == [] || newline == [NEWLINE]
    ensures AfterLine(c, PrintLine(k, value) + newline) == if value == [] then c else Assign(c, k, value)
  {
    hide Name, Assign, ParseLine, KeyOf;
    ParsePrinted(k, value, newline);
    KeyOfName(k);
  }

  /** A line that fills the buffer leaves its newline for the next fgets. */
  lemma FullLine(text: Bytes, rest: Bytes)
    requires NEWLINE !in text && |text| + 1 == LINE_BUFFER_SIZE
    ensures Fgets(text + [NEWLINE] + rest, LINE_BUFFER_SIZE) == Some(Line(text, [NEWLINE] + rest))
    ensures Fgets([NEWLINE] + rest, LINE_BUFFER_SIZE) == Some(Line([NEWLINE], rest))
  {
    var file := text + [NEWLINE] + rest;
    assert file[..|text|] == text;
    IndexOfUnique(file, NEWLINE, |text|);
    assert file[|text|..] == [NEWLINE] + rest;
    FgetsLine([], rest, LINE_BUFFER_SIZE);
    assert [] + [NEWLINE] + rest == [NEWLINE] + rest && [] + [NEWLINE] == [NEWLINE];
  }

  lemma LoadPrinted(c: Config, k: Key, value: Bytes, rest: Bytes)
    requires value == [] || Carries(|Name(k)|, value)
    ensures LoadFrom(c, PrintLine(k, value) + [NEWLINE] + rest) ==
            LoadFrom(if value == [] then c else Assign(c, k, value), rest)
  {
    hide Name, Assign, ParseLine, Fgets;
    NameIsPlain(k);
    var line := PrintLine(k, value);
    assert NEWLINE !in line;
    if |line| + 1 == LINE_BUFFER_SIZE {
      FullLine(line, rest);
      PrintedAfterLine(c, k, value, []);
      assert line + [] == line;
      NewlineSkipped(AfterLine(c, line), rest);
    } else {
      FgetsLine(line, rest, LINE_BUFFER_SIZE);
      PrintedAfterLine(c, k, value, [NEWLINE]);
    }
  }

  lemma NewlineSkipped(c: Config, rest: Bytes)
    ensures LoadFrom(c, [NEWLINE] + rest) == LoadFrom(c, rest)
  {
    FgetsLine([], rest, LINE_BUFFER_SIZE);
    assert [] + [NEWLINE] + rest == [NEWLINE] + rest && [] + [NEWLINE] == [NEWLINE];
  }

  predicate IsInt(n: int) {
    -0x8000_0000 <= n < 0x8000_0000
  }

  predicate IntFields(c: Config) {
    IsInt(c.maxConnections) && IsInt(c.port) && IsInt(c.logLevel) && IsInt(c.enableAuth)
  }

  lemma NumberCarried(k: Key, n: int)
    requires IsInt(n)
    ensures Carries(|Name(k)|, PrintInt(n))
  {
    hide Name;
    PrintIntLength(n);
    var digits := PrintInt(n);
    assert IsDigit(digits[0]) || digits[0] == MINUS;
    assert EQUALS !in digits && NEWLINE !in digits && NUL !in digits;
  }

  lemma LoadNumber(c: Config, k: Key, n: int, rest: Bytes)
    requires IsInt(n)
    ensures LoadFrom(c, PrintLine(k, PrintInt(n)) + [NEWLINE] + rest) == LoadFrom(Assign(c, k, PrintInt(n)), rest)
  {
    hide Name, PrintLine, Assign;
    NumberCarried(k, n);
    LoadPrinted(c, k, PrintInt(n), rest);
  }

  lemma TitleIsComment()
    ensures TITLE[0] == HASH_SIGN && NEWLINE !in TITLE && |TITLE| == 31
  {
    var text := "# CileServer Configuration File";
    assert forall i :: 0 <= i < |text| ==> 32 <= text[i] as int < 123;
  }

  lemma TitleSkipped(c: Config, rest: Bytes)
    ensures LoadFrom(c, TITLE + [NEWLINE] + rest) == LoadFrom(c, rest)
  {
    hide TITLE, Ascii;
    TitleIsComment();
    FgetsLine(TITLE, rest, LINE_BUFFER_SIZE);
  }

  /** A string that the file either carries or, when empty, does not mention. */
  predicate Readable(n: nat, value: Bytes) {
    value == [] || Carries(n, value)
  }

  function OrElse(value: Bytes, default: Bytes): Bytes {
    if value == [] then default else value
  }

  lemma LoadSaved(d: Config, c: Config)
    requires IntFields(c) && Readable(14, c.root) && Readable(9, c.authFile)
    ensures LoadFrom(d, SaveText(c)) == c.(root := OrElse(c.root, d.root), authFile := OrElse(c.authFile, d.authFile))
  {
    hide Name, PrintLine, TITLE, LoadFrom, Atoi, PrintInt;
    var l6: Bytes := [];
    var l5 := PrintLine(AuthFile, c.authFile) + [NEWLINE] + l6;
    var l4 := PrintLine(EnableAuth, PrintInt(c.enableAuth)) + [NEWLINE] + l5;
    var l3 := PrintLine(LogLevel, PrintInt(c.logLevel)) + [NEWLINE] + l4;
    var l2 := PrintLine(Port, PrintInt(c.port)) + [NEWLINE] + l3;
    var l1 := PrintLine(MaxConnections, PrintInt(c.maxConnections)) + [NEWLINE] + l2;
    var l0 := PrintLine(RootDirectory, c.root) + [NEWLINE] + l1;
    TitleSkipped(d, [] + [NEWLINE] + l0);
    assert [] + [NEWLINE] + l0 == [NEWLINE] + l0;
    NewlineSkipped(d, l0);
    LoadPrinted(d, RootDirectory, c.root, l1);
    var d1 := d.(root := OrElse(c.root, d.root));
    LoadNumber(d1, MaxConnections, c.maxConnections, l2);
    AtoiUndoesPrint(c.maxConnections);
    var d2 := d1.(maxConnections := c.maxConnections);
    LoadNumber(d2, Port, c.port, l3);
    AtoiUndoesPrint(c.port);
    var d3 := d2.(port := c.port);
    LoadNumber(d3, LogLevel, c.logLevel, l4);
    AtoiUndoesPrint(c.logLevel);
    var d4 := d3.(logLevel := c.logLevel);
    LoadNumber(d4, EnableAuth, c.enableAuth, l5);
    AtoiUndoesPrint(c.enableAuth);
    var d5 := d4.(enableAuth := c.enableAuth);
    LoadPrinted(d5, AuthFile, c.authFile, l6);
    LoadNothing(d5.(authFile := OrElse(c.authFile, d.authFile)));
  }

  lemma LoadNothing(c: Config)
    ensures LoadFrom(c, []) == c
  {
  }

  // What loading can yield at all

  lemma ParsedIsReadable(text: Bytes, k: Key)
    requires text != [] && |text| < LINE_BUFFER_SIZE
    requires ParseLine(text).Some? && KeyOf(ParseLine(text).value.0) == Some(k)
    ensures Readable(|Name(k)|, ParseLine(text).value.1)
  {
    hide Name, StrTok, Content, TrimSpaces;
    var s := Content(text);
    var key := StrTok(s, EQUALS).value;
    assert StrTok([], EQUALS).None? by {
      NoTokenOfNothing();
    }
    var value := StrTok(key.rest, EQUALS).value;
    assert |TrimSpaces(key.text)| == |Name(k)| by {
      KeyOfIsName(TrimSpaces(key.text), k);
    }
    assert forall b :: b in value.text ==> b in s;
    assert |value.text| <= |key.rest|;
  }

  lemma NoTokenOfNothing()
    ensures StrTok([], EQUALS).None?
  {
  }

  lemma KeyOfIsName(name: Bytes, k: Key)
    requires KeyOf(name) == Some(k)
    ensures name == Name(k)
  {
    hide Name;
  }

  lemma LineIsReadable(d: Config, c: Config, text: Bytes)
    requires text != [] && |text| < LINE_BUFFER_SIZE
    requires (c.root == d.root || Readable(14, c.root)) && (c.authFile == d.authFile || Readable(9, c.authFile))
    ensures var r := AfterLine(c, text);
            (r.root == d.root || Readable(14, r.root)) && (r.authFile == d.authFile || Readable(9, r.authFile))
  {
    hide ParseLine, KeyOf, Carries;
    var parsed := ParseLine(text);
    if parsed.Some? && KeyOf(parsed.value.0).Some? {
      ParsedIsReadable(text, KeyOf(parsed.value.0).value);
      CarriedFits(|Name(KeyOf(parsed.value.0).value)|, parsed.value.1);
    }
  }

  lemma CarriedFits(n: nat, value: Bytes)
    requires Readable(n, value)
    ensures Cut(value, FIELD_ROOM) == value
  {
  }

  /** Each string field that was loaded is its default or could be saved again. */
  lemma {:induction false} LoadedIsReadable(d: Config, c: Config, file: Bytes)
    requires (c.root == d.root || Readable(14, c.root)) && (c.authFile == d.authFile || Readable(9, c.authFile))
    ensures var r := LoadFrom(c, file);
            (r.root == d.root || Readable(14, r.root)) && (r.authFile == d.authFile || Readable(9, r.authFile))
    decreases |file|
  {
    hide AfterLine, Readable;
    match Fgets(file, LINE_BUFFER_SIZE)
    case None =>
    case Some(line) =>
      LineIsReadable(d, c, line.text);
      LoadedIsReadable(d, AfterLine(c, line.text), line.rest);
  }

  /** The first line of "root_directory=/..." assigns a value that could be saved
      again, whatever else the text holds. */
  lemma FirstLineAssigns(c: Config, value: Bytes, rest: Bytes)
    requires value != [] && value[0] == SLASH
    ensures var file := PrintLine(RootDirectory, value) + [NEWLINE] + rest;
            exists root, left :: root != [] && Readable(14, root) &&
              LoadFrom(c, file) == LoadFrom(c.(root := root), left)
  {
    hide Name, LoadFrom, StrTok, IndexOf, TrimSpaces, Readable, KeyOf;
    var file := PrintLine(RootDirectory, value) + [NEWLINE] + rest;
    NameIsPlain(RootDirectory);
    var name := Name(RootDirectory);
    assert file == name + [EQUALS] + (value + [NEWLINE] + rest);
    var line := Fgets(file, LINE_BUFFER_SIZE).value;
    LineStarts(name + [EQUALS, SLASH], file, line);
    ParsedStart(name, line.text);
    KeyOfName(RootDirectory);
    ParsedIsReadable(line.text, RootDirectory);
    CarriedFits(14, ParseLine(line.text).value.1);
    LoadStep(c, file);
  }

  lemma LoadStep(c: Config, file: Bytes)
    requires file != []
    ensures var line := Fgets(file, LINE_BUFFER_SIZE).value;
            LoadFrom(c, file) == LoadFrom(AfterLine(c, line.text), line.rest)
  {
    hide AfterLine;
  }

  /** A short front part of the file without a newline is on its first line, and
      what the parser sees of that line starts with it. */
  lemma LineStarts(front: Bytes, file: Bytes, line: Line)
    requires front <= file && front != [] && |front| < 100
    requires NEWLINE !in front && NUL !in front
    requires Fgets(file, LINE_BUFFER_SIZE) == Some(line)
    ensures front <= line.text && front <= Content(line.text)
  {
    hide StrTok;
    assert forall i :: 0 <= i < |front| ==> file[i] == front[i];
    assert IndexOf(file, NEWLINE) >= |front|;
    assert front <= line.text;
    assert forall i :: 0 <= i < |front| ==> line.text[i] == front[i];
    assert IndexOf(line.text, NUL) >= |front|;
    var s := CStr(line.text);
    assert forall i :: 0 <= i < |front| ==> s[i] == front[i];
    assert IndexOf(s, NEWLINE) >= |front|;
  }

  /** A line that starts with a name, '=' and a slash is parsed as that name and a
      non-empty value. */
  lemma ParsedStart(name: Bytes, text: Bytes)
    requires name != [] && forall i :: 0 <= i < |name| ==> PlainByte(name[i])
    requires text != [] && text[0] == name[0] && name + [EQUALS, SLASH] <= Content(text)
    ensures ParseLine(text).Some? && ParseLine(text).value.0 == name && ParseLine(text).value.1 != []
  {
    hide IndexOf, Content;
    var s := Content(text);
    var tail := s[|name| + 1..];
    assert s == name + [EQUALS] + tail && tail[0] == SLASH;
    assert EQUALS !in name && PlainByte(name[0]);
    StrTokField(name, EQUALS, tail);
    assert TrimSpaces(name) == name;
    var value := StrTok(tail, EQUALS).value;
    SlashFirst(tail);
    assert TrimSpaces(value.text) == value.text;
  }

  lemma SlashFirst(s: Bytes)
    requires s != [] && s[0] == SLASH
    ensures StrTok(s, EQUALS).Some? && StrTok(s, EQUALS).value.text != [] && StrTok(s, EQUALS).value.text[0] == SLASH
  {
  }

  /** The strings of a configuration that is restored can be on a line. */
  lemma RestoredIsReadable(d: Config, c: Config)
    requires d.root != [] && (d.root[0] == SLASH || Carries(14, d.root)) && Carries(9, d.authFile)
    requires LoadFrom(d, SaveText(c)) == c
    ensures Readable(14, c.root) && Readable(9, c.authFile)
  {
    hide LoadFrom, PrintLine, Name, TITLE, Carries, PrintInt;
    LoadedIsReadable(d, d, SaveText(c));
    if c.root == d.root && c.root[0] == SLASH {
      var rest := PrintFrom(c, [])[|PrintLine(RootDirectory, c.root) + [NEWLINE]|..];
      assert PrintFrom(c, []) == PrintLine(RootDirectory, c.root) + [NEWLINE] + rest;
      assert SaveText(c) == TITLE + [NEWLINE] + ([NEWLINE] + PrintFrom(c, []));
      TitleSkipped(d, [NEWLINE] + PrintFrom(c, []));
      NewlineSkipped(d, PrintFrom(c, []));
      FirstLineAssigns(d, c.root, rest);
      var root, left :| Readable(14, root) && LoadFrom(d, PrintFrom(c, [])) == LoadFrom(d.(root := root), left);
      LoadedIsReadable(d.(root := root), d.(root := root), left);
    }
  }

  /** Over defaults with an absolute or a usable root and a usable name for the file
      of users, saving and loading restores the whole configuration exactly when
      both of its strings are non-empty, do not start with a space, have no '=',
      newline or NUL, and fit the line buffer together with their name. */
  lemma RestoredExactly(d: Config, c: Config)
    requires IntFields(c) && d.root != [] && (d.root[0] == SLASH || Carries(14, d.root)) && Carries(9, d.authFile)
    ensures LoadFrom(d, SaveText(c)) == c <==> Carries(14, c.root) && Carries(9, c.authFile)
  {
    hide LoadFrom, SaveText, Carries;
    CarriedIsNotEmpty(9, d.authFile);
    if LoadFrom(d, SaveText(c)) == c {
      RestoredIsReadable(d, c);
    }
    if Readable(14, c.root) && Readable(9, c.authFile) {
      LoadSaved(d, c);
    }
    if Carries(14, c.root) {
      CarriedIsNotEmpty(14, c.root);
    }
    if Carries(9, c.authFile) {
      CarriedIsNotEmpty(9, c.authFile);
    }
  }

  lemma CarriedIsNotEmpty(n: nat, value: Bytes)
    requires Carries(n, value)
    ensures value != []
  {
  }

  /** The defaults of a server are such defaults, whether getcwd succeeds or not. */
  lemma DefaultsAreUsable(cwd: Option<Bytes>)
    requires cwd.Some? ==> cwd.value != [] && cwd.value[0] == SLASH
    ensures var d := Defaults(cwd);
            d.root != [] && (d.root[0] == SLASH || Carries(14, d.root)) && Carries(9, d.authFile)
  {
    var text := "users.auth";
    assert forall i :: 0 <= i < |text| ==> 46 <= text[i] as int < 123 && text[i] != '=';
  }

  /** A server started in "/a=b" saves its default root and loads "/a". */
  lemma DefaultRootIsLost(c: Config)
    requires IntFields(c) && c.root == [SLASH, 97, EQUALS, 98]
    ensures var d := Defaults(Some([SLASH, 97, EQUALS, 98]));
            d.root == c.root && LoadFrom(d, SaveText(c)) != c
  {
    hide LoadFrom, SaveText;
    DefaultsAreUsable(Some(c.root));
    RestoredExactly(Defaults(Some(c.root)), c);
  }

  // Names and texts as they are written in the file

  /** Each name sets its own field, and any other name sets none. */
  lemma NamedFields(c: Config, name: Bytes, value: Bytes)
    ensures WithValue(c, Ascii("root_directory"), value) == c.(root := Cut(value, 1023))
    ensures WithValue(c, Ascii("max_connections"), value) == c.(maxConnections := Atoi(value))
    ensures WithValue(c, Ascii("port"), value) == c.(port := Atoi(value))
    ensures WithValue(c, Ascii("log_level"), value) == c.(logLevel := Atoi(value))
    ensures WithValue(c, Ascii("enable_auth"), value) == c.(enableAuth := Atoi(value))
    ensures WithValue(c, Ascii("auth_file"), value) == c.(authFile := Cut(value, 1023))
    ensures WithValue(c, name, value) == c ||
            name in [Ascii("root_directory"), Ascii("max_connections"), Ascii("port"), Ascii("log_level"),
                     Ascii("enable_auth"), Ascii("auth_file")]
  {
    hide Atoi, Ascii, KeyOf;
    KeyOfName(RootDirectory);
    KeyOfName(MaxConnections);
    KeyOfName(Port);
    KeyOfName(LogLevel);
    KeyOfName(EnableAuth);
    KeyOfName(AuthFile);
    if KeyOf(name).Some? {
      KeyOfIsName(name, KeyOf(name).value);
    }
  }

  /** A comment assigns nothing, whatever it says. */
  lemma CommentIsIgnored(c: Config, text: Bytes)
    requires text != [] && text[0] == 35
    ensures AfterLine(c, text) == c
  {
  }

  lemma {:induction false} SpacesTrimmed(n: nat, s: Bytes)
    requires s != [] && s[0] != SPACE
    ensures TrimSpaces(seq(n, _ => SPACE) + s) == s
  {
    var padded := seq(n, _ => SPACE) + s;
    if n == 0 {
      assert padded == s;
    } else {
      assert padded[1..] == seq(n - 1, _ => SPACE) + s;
      SpacesTrimmed(n - 1, s);
    }
  }

  lemma Padded(n: nat, s: Bytes)
    ensures |seq(n, _ => SPACE) + s| == n + |s|
    ensures forall b :: b in seq(n, _ => SPACE) + s ==> b == SPACE || b in s
  {
  }

  /** Spaces before the name and before the value do not count. */
  lemma SpacesAreSkipped(c: Config, k: Key, value: Bytes, before: nat, after: nat)
    requires Carries(|Name(k)|, value)
    ensures AfterLine(c, seq(before, _ => SPACE) + Name(k) + [EQUALS] + (seq(after, _ => SPACE) + value) + [NEWLINE]) ==
            Assign(c, k, value)
  {
    hide Name, Assign, KeyOf;
    var name, rest := seq(before, _ => SPACE) + Name(k), seq(after, _ => SPACE) + value;
    NameIsPlain(k);
    assert PlainByte(Name(k)[0]);
    Padded(before, Name(k));
    Padded(after, value);
    SpacesTrimmed(before, Name(k));
    SpacesTrimmed(after, value);
    KeyOfName(k);
    ParsedPair(name, rest);
  }

  lemma ParsedPair(name: Bytes, value: Bytes)
    requires name != [] && name[0] != HASH_SIGN && value != []
    requires EQUALS !in name && NEWLINE !in name && NUL !in name
    requires EQUALS !in value && NEWLINE !in value && NUL !in value
    ensures ParseLine(name + [EQUALS] + value + [NEWLINE]) == Some((TrimSpaces(name), TrimSpaces(value)))
  {
    var line := name + [EQUALS] + value;
    ContentOf(line);
    assert (line + [NEWLINE])[0] == name[0];
    hide StrTok, Content, TrimSpaces;
    StrTokField(name, EQUALS, value);
    StrTokField(value, EQUALS, []);
  }

  lemma DefaultNumbers()
    ensures PrintInt(100) == Ascii("100") && PrintInt(8080) == Ascii("8080")
    ensures PrintInt(1) == Ascii("1") && PrintInt(0) == Ascii("0")
  {
    assert PrintNat(10) == [49, 48];
    assert PrintNat(80) == [56, 48] && PrintNat(808) == [56, 48, 56];
  }

  /** What a server without a configuration file saves. */
  lemma DefaultText(cwd: Bytes)
    requires |cwd| <= 1023
    ensures SaveText(Defaults(Some(cwd))) ==
            Ascii("# CileServer Configuration File") + Ascii("\n") + Ascii("\n") +
            (Ascii("root_directory") + Ascii("=") + cwd + Ascii("\n")) +
            (Ascii("max_connections") + Ascii("=") + Ascii("100") + Ascii("\n")) +
            (Ascii("port") + Ascii("=") + Ascii("8080") + Ascii("\n")) +
            (Ascii("log_level") + Ascii("=") + Ascii("1") + Ascii("\n")) +
            (Ascii("enable_auth") + Ascii("=") + Ascii("0") + Ascii("\n")) +
            (Ascii("auth_file") + Ascii("=") + Ascii("users.auth") + Ascii("\n"))
  {
    DefaultNumbers();
    assert Ascii("=") == [EQUALS] && Ascii("\n") == [NEWLINE];
    hide Ascii, PrintInt;
  }

  // The code

  class ServerConfig {
    var root: Bytes
    var maxConnections: int
    var port: int
    var logLevel: int
    var enableAuth: int
    var authFile: Bytes

    ghost function Value(): Config reads this {
      Config(root, maxConnections, port, logLevel, enableAuth, authFile)
    }

    constructor ()
      ensures Value() == Config([], 0, 0, 0, 0, [])
    {
      root, maxConnections, port, logLevel, enableAuth, authFile := [], 0, 0, 0, 0, [];
    }

    method InitDefaults(cwd: Option<Bytes>)
      modifies this
      ensures Value() == Defaults(cwd)
    {
      match cwd {
        case Some(d) => root := Cut(d, FIELD_ROOM);
        case None => root := Cut([DOT], FIELD_ROOM);
      }
      maxConnections, port, logLevel, enableAuth := 100, 8080, 1, 0;
      authFile := Ascii("users.auth");
    }

    method SetConfigValue(name: Bytes, value: Bytes) returns (rc: int)
      modifies this
      ensures Value() == WithValue(old(Value()), name, value)
      ensures rc == if KeyOf(name).Some? then 0 else -1
    {
      hide Name, Atoi;
      if name == Name(RootDirectory) {
        root := Cut(value, FIELD_ROOM);
      } else if name == Name(MaxConnections) {
        maxConnections := Atoi(value);
      } else if name == Name(Port) {
        port := Atoi(value);
      } else if name == Name(LogLevel) {
        logLevel := Atoi(value);
      } else if name == Name(EnableAuth) {
        enableAuth := Atoi(value);
      } else if name == Name(AuthFile) {
        authFile := Cut(value, FIELD_ROOM);
      } else {
        return -1;
      }
      return 0;
    }

    method LoadConfig(file: Option<Bytes>, cwd: Option<Bytes>)
      modifies this
      ensures Value() == match file case None => Defaults(cwd) case Some(text) => LoadFrom(Defaults(cwd), text)
    {
      hide ParseLine, WithValue, Fgets, Defaults, KeyOf;
      InitDefaults(cwd);
      if file.None? {
        return;
      }
      var rest := file.value;
      var next := Fgets(rest, LINE_BUFFER_SIZE);
      while next.Some?
        invariant next == Fgets(rest, LINE_BUFFER_SIZE)
        invariant LoadFrom(Value(), rest) == LoadFrom(Defaults(cwd), file.value)
        decreases |rest|
      {
        var pair := ParseLine(next.value.text);
        if pair.Some? {
          var rc := SetConfigValue(pair.value.0, pair.value.1);
        }
        rest := next.value.rest;
        next := Fgets(rest, LINE_BUFFER_SIZE);
      }
    }

    method SaveConfig() returns (text: Bytes)
      ensures text == SaveText(Value())
    {
      hide Name, PrintLine, PrintInt, TITLE;
      ghost var p5 := PrintLine(AuthFile, authFile) + [NEWLINE] + [];
      ghost var p4 := PrintLine(EnableAuth, PrintInt(enableAuth)) + [NEWLINE] + p5;
      ghost var p3 := PrintLine(LogLevel, PrintInt(logLevel)) + [NEWLINE] + p4;
      ghost var p2 := PrintLine(Port, PrintInt(port)) + [NEWLINE] + p3;
      ghost var p1 := PrintLine(MaxConnections, PrintInt(maxConnections)) + [NEWLINE] + p2;
      ghost var p0 := PrintLine(RootDirectory, root) + [NEWLINE] + p1;
      text := TITLE + [NEWLINE] + [NEWLINE];
      assert text + p0 == SaveText(Value());
      text := text + (PrintLine(RootDirectory, root) + [NEWLINE]);
      assert text + p1 == SaveText(Value());
      text := text + (PrintLine(MaxConnections, PrintInt(maxConnections)) + [NEWLINE]);
      assert text + p2 == SaveText(Value());
      text := text + (PrintLine(Port, PrintInt(port)) + [NEWLINE]);
      assert text + p3 == SaveText(Value());
      text := text + (PrintLine(LogLevel, PrintInt(logLevel)) + [NEWLINE]);
      assert text + p4 == SaveText(Value());
      text := text + (PrintLine(EnableAuth, PrintInt(enableAuth)) + [NEWLINE]);
      assert text + p5 == SaveText(Value());
      text := text + (PrintLine(AuthFile, authFile) + [NEWLINE]);
    }
  }
}
