/** The user table and its text file. */
module Users {
  import opened CBytes
  import opened TextFiles
  import opened Hashing

  // Roles are the C enumeration user_role_t, read from the file with atoi.
  const ROLE_GUEST: int := 0
  const ROLE_USER: int := 1
  const ROLE_ADMIN: int := 2

  const MAX_USERS: nat := 100
  const LINE_BUFFER_SIZE: nat := 256
  const NAME_ROOM: nat := 63
  const HASH_ROOM: nat := 127
  const SALT_SIZE: nat := 16

  datatype User = User(username: Bytes, passwordHash: Bytes, role: int)

  /** The first user of that name, or |us|. */
  function Lookup(us: seq<User>, name: Bytes): (k: nat)
    ensures k <= |us|
    ensures k < |us| ==> us[k].username == name
    ensures forall i :: 0 <= i < k ==> us[i].username != name
  {
    if us == [] || us[0].username == name then 0
    else
      var k := Lookup(us[1..], name);
      assert forall i :: 0 < i < k + 1 ==> us[i] == us[1..][i - 1];
      k + 1
  }

  /** Does the password match salt$hash, or the bare hash of an old file? */
  predicate Matches(stored: Bytes, password: Bytes) {
    var k := IndexOf(stored, DOLLAR);
    if k < |stored| then stored[k + 1..] == Hash(password, stored[..k]) else stored == Hash(password, [])
  }

  function Authenticate(us: seq<User>, name: Bytes, password: Bytes): Option<int> {
    var k := Lookup(us, name);
    if k < |us| && Matches(us[k].passwordHash, password) then Some(us[k].role) else None
  }

  function SaltedHash(password: Bytes, salt: Bytes): Bytes {
    Hex(salt) + [DOLLAR] + Hash(password, Hex(salt))
  }

  function NewUser(name: Bytes, password: Bytes, role: int, salt: Bytes): User {
    User(Cut(name, NAME_ROOM), Cut(SaltedHash(password, salt), HASH_ROOM), role)
  }

  function Added(us: seq<User>, name: Bytes, password: Bytes, role: int, salt: Bytes): Option<seq<User>> {
    if |us| >= MAX_USERS || Lookup(us, name) < |us| then None
    else Some(us + [NewUser(name, password, role, salt)])
  }

  function Removed(us: seq<User>, name: Bytes): Option<seq<User>> {
    var k := Lookup(us, name);
    if k == |us| then None else Some(us[..k] + us[k + 1..])
  }

  // The text file

  const HEADER_TITLE: Bytes := Ascii("# CileServer Authentication File")
  const HEADER_FORMAT: Bytes := Ascii("# Format: username:password_hash:role")

  function PrintUser(u: User): Bytes {
    u.username + [COLON] + (u.passwordHash + [COLON] + PrintInt(u.role))
  }

  function PrintUsers(us: seq<User>): Bytes {
    if us == [] then [] else PrintUser(us[0]) + [NEWLINE] + PrintUsers(us[1..])
  }

  function SaveText(us: seq<User>): Bytes {
    HEADER_TITLE + [NEWLINE] + (HEADER_FORMAT + [NEWLINE] + PrintUsers(us))
  }

  /** One line of the file: None for a comment, an empty line or missing fields. */
  function ParseUser(text: Bytes): Option<User>
    requires text != []
  {
    if text[0] == HASH_SIGN || text[0] == NEWLINE then None
    else match StrTok(Content(text), COLON)
      case None => None
      case Some(name) =>
        match StrTok(name.rest, COLON)
        case None => None
        case Some(hash) =>
          match StrTok(hash.rest, COLON)
          case None => None
          case Some(role) => Some(User(Cut(name.text, NAME_ROOM), Cut(hash.text, HASH_ROOM), Atoi(role.text)))
  }

  /** The users read from here on, when some have been read already. */
  function LoadFrom(file: Bytes, have: nat): (us: seq<User>)
    requires have <= MAX_USERS
    ensures have + |us| <= MAX_USERS
    decreases |file|
  {
    match Fgets(file, LINE_BUFFER_SIZE)
    case None => []
    case Some(line) =>
      if have == MAX_USERS then []
      else match ParseUser(line.text)
        case None => LoadFrom(line.rest, have)
        case Some(u) => [u] + LoadFrom(line.rest, have + 1)
  }

  /** The file as it is written: two comment lines, then one line for each user. */
  lemma SavedText(us: seq<User>, u: User)
    ensures SaveText([]) == Ascii("# CileServer Authentication File") + Ascii("\n") +
                            (Ascii("# Format: username:password_hash:role") + Ascii("\n"))
    ensures SaveText(us + [u]) == SaveText(us) + (u.username + Ascii(":") +
                                                  (u.passwordHash + Ascii(":") + PrintInt(u.role)) + Ascii("\n"))
  {
    HeaderTexts();
    assert Ascii(":") == [COLON] && Ascii("\n") == [NEWLINE];
    hide Ascii, PrintInt, HEADER_TITLE, HEADER_FORMAT, PrintUsers;
    PrintUsersSnoc(us, u);
    assert PrintUsers([]) == [] by {
      NoUsersNoLines();
    }
    Appended(HEADER_TITLE + [NEWLINE], HEADER_FORMAT + [NEWLINE], PrintUsers(us), PrintUser(u) + [NEWLINE]);
  }

  lemma NoUsersNoLines()
    ensures PrintUsers([]) == []
  {
  }

  lemma Appended(a: Bytes, b: Bytes, c: Bytes, d: Bytes)
    ensures a + (b + (c + d)) == a + (b + c) + d
  {
  }

  lemma HeaderTexts()
    ensures HEADER_TITLE == Ascii("# CileServer Authentication File")
    ensures HEADER_FORMAT == Ascii("# Format: username:password_hash:role")
  {
    hide Ascii;
  }

  lemma {:induction false} PrintUsersSnoc(us: seq<User>, u: User)
    ensures PrintUsers(us + [u]) == PrintUsers(us) + (PrintUser(u) + [NEWLINE])
  {
    hide PrintUser;
    if us == [] {
      assert (us + [u])[1..] == [];
    } else {
      assert (us + [u])[1..] == us[1..] + [u];
      PrintUsersSnoc(us[1..], u);
    }
  }

  // A table that survives the file

  predicate PlainField(s: Bytes, room: nat) {
    0 < |s| <= room && COLON !in s && NEWLINE !in s && NUL !in s
  }

  predicate Storable(u: User) {
    && PlainField(u.username, NAME_ROOM) && u.username[0] != HASH_SIGN
    && PlainField(u.passwordHash, HASH_ROOM)
    && -0x8000_0000 <= u.role < 0x8000_0000
  }

  lemma ParseUndoesPrint(u: User)
    requires Storable(u)
    ensures ParseUser(PrintUser(u) + [NEWLINE]) == Some(u)
    ensures NEWLINE !in PrintUser(u) && |PrintUser(u)| + 2 <= LINE_BUFFER_SIZE
  {
    var digits := PrintInt(u.role);
    PrintIntLength(u.role);
    assert COLON !in digits && NEWLINE !in digits && NUL !in digits;
    ContentOf(PrintUser(u));
    StrTokField(u.username, COLON, u.passwordHash + [COLON] + digits);
    StrTokField(u.passwordHash, COLON, digits);
    StrTokField(digits, COLON, []);
    AtoiUndoesPrint(u.role);
  }

  lemma {:induction false} UsersReload(us: seq<User>, have: nat)
    requires have + |us| <= MAX_USERS
    requires forall i :: 0 <= i < |us| ==> Storable(us[i])
    ensures LoadFrom(PrintUsers(us), have) == us
  {
    if us != [] {
      ParseUndoesPrint(us[0]);
      FgetsLine(PrintUser(us[0]), PrintUsers(us[1..]), LINE_BUFFER_SIZE);
      UsersReload(us[1..], have + 1);
      assert [us[0]] + us[1..] == us;
    }
  }

  lemma CommentSkipped(text: Bytes, rest: Bytes, have: nat)
    requires text != [] && text[0] == HASH_SIGN && NEWLINE !in text && |text| + 2 <= LINE_BUFFER_SIZE
    requires have < MAX_USERS
    ensures LoadFrom(text + [NEWLINE] + rest, have) == LoadFrom(rest, have)
  {
    FgetsLine(text, rest, LINE_BUFFER_SIZE);
  }

  /** A line that does not fit the buffer is read in pieces of 255 bytes, and each of
      them is taken for a line. */
  lemma LongLineIsSplit(text: Bytes, rest: Bytes, have: nat)
    requires |text| == 255 && NEWLINE !in text && have < MAX_USERS
    ensures LoadFrom(text + rest, have) ==
            match ParseUser(text)
            case None => LoadFrom(rest, have)
            case Some(u) => [u] + LoadFrom(rest, have + 1)
  {
    hide ParseUser;
    var file := text + rest;
    assert file[..255] == text && file[255..] == rest;
    assert forall i :: 0 <= i < 255 ==> file[i] == text[i];
    assert IndexOf(file, NEWLINE) >= 255;
  }

  lemma TitleIsComment()
    ensures HEADER_TITLE[0] == HASH_SIGN && NEWLINE !in HEADER_TITLE && |HEADER_TITLE| == 32
  {
    var text := "# CileServer Authentication File";
    assert forall i :: 0 <= i < |text| ==> 32 <= text[i] as int < 123;
  }

  lemma FormatIsComment()
    ensures HEADER_FORMAT[0] == HASH_SIGN && NEWLINE !in HEADER_FORMAT && |HEADER_FORMAT| == 37
  {
    var text := "# Format: username:password_hash:role";
    assert forall i :: 0 <= i < |text| ==> 32 <= text[i] as int < 123;
  }

  /** Saving the table and loading the file gives the same table, in order. */
  lemma ReloadIsIdentity(us: seq<User>)
    requires |us| <= MAX_USERS
    requires forall i :: 0 <= i < |us| ==> Storable(us[i])
    ensures LoadFrom(SaveText(us), 0) == us
  {
    hide HEADER_TITLE, HEADER_FORMAT;
    TitleIsComment();
    FormatIsComment();
    CommentSkipped(HEADER_TITLE, HEADER_FORMAT + [NEWLINE] + PrintUsers(us), 0);
    CommentSkipped(HEADER_FORMAT, PrintUsers(us), 0);
    UsersReload(us, 0);
  }

  // Credentials

  lemma NewUserMatches(name: Bytes, password: Bytes, role: int, salt: Bytes)
    requires |salt| == SALT_SIZE
    ensures Matches(NewUser(name, password, role, salt).passwordHash, password)
    ensures PlainField(NewUser(name, password, role, salt).passwordHash, HASH_ROOM)
  {
    hide Hash, Hex;
    var stored := SaltedHash(password, salt);
    assert |stored| == 97 && Cut(stored, HASH_ROOM) == stored;
    assert forall i :: 0 <= i < |stored| ==> IsLowerHex(stored[i]) || stored[i] == DOLLAR;
    assert stored[..32] == Hex(salt) && stored[33..] == Hash(password, Hex(salt));
    assert forall i :: 0 <= i < 32 ==> stored[..32][i] != DOLLAR;
    IndexOfUnique(stored, DOLLAR, 32);
  }

  lemma LookupUnique(us: seq<User>, name: Bytes, k: nat)
    requires k <= |us| && forall i :: 0 <= i < k ==> us[i].username != name
    requires k < |us| ==> us[k].username == name
    ensures Lookup(us, name) == k
  {
  }

  /** Us[k] is the first user of its name. */
  ghost predicate FirstOfName(us: seq<User>, k: nat) {
    k < |us| && forall i :: 0 <= i < k ==> us[i].username != us[k].username
  }

  /** With a salt before the first '$' a password is accepted exactly when its hash
      with that salt is what follows; then the role is the user's. */
  lemma SaltedDecides(us: seq<User>, k: nat, salt: Bytes, hash: Bytes, password: Bytes)
    requires FirstOfName(us, k) && us[k].passwordHash == salt + [DOLLAR] + hash && DOLLAR !in salt
    ensures Authenticate(us, us[k].username, password) ==
            if Hash(password, salt) == hash then Some(us[k].role) else None
  {
    hide Hash;
    LookupUnique(us, us[k].username, k);
    var stored := us[k].passwordHash;
    assert stored[..|salt|] == salt && stored[|salt| + 1..] == hash;
    IndexOfUnique(stored, DOLLAR, |salt|);
  }

  /** Without a '$' the whole field is the hash, with no salt. */
  lemma UnsaltedDecides(us: seq<User>, k: nat, password: Bytes)
    requires FirstOfName(us, k) && DOLLAR !in us[k].passwordHash
    ensures Authenticate(us, us[k].username, password) ==
            if Hash(password, []) == us[k].passwordHash then Some(us[k].role) else None
  {
    hide Hash;
    LookupUnique(us, us[k].username, k);
    var stored := us[k].passwordHash;
    assert stored[..|stored|] == stored;
    IndexOfUnique(stored, DOLLAR, |stored|);
  }

  /** Nobody is accepted under a name that is not in the table. */
  lemma UnknownIsRefused(us: seq<User>, name: Bytes, password: Bytes)
    requires forall u :: u in us ==> u.username != name
    ensures Authenticate(us, name, password) == None
  {
    hide Hash;
    LookupUnique(us, name, |us|);
  }

  /** A user is added exactly when there is room and the name is not known; it comes
      last, with the salt in hexadecimal and the hash with that salt. */
  lemma AddedExactly(us: seq<User>, name: Bytes, password: Bytes, role: int, salt: Bytes)
    requires |salt| == 16
    ensures Added(us, name, password, role, salt) ==
            if |us| < 100 && (forall u :: u in us ==> u.username != name)
            then Some(us + [User(Cut(name, 63), Hex(salt) + Ascii("$") + Hash(password, Hex(salt)), role)])
            else None
  {
    hide Hash, Hex;
    assert Ascii("$") == [DOLLAR];
    if forall u :: u in us ==> u.username != name {
      LookupUnique(us, name, |us|);
    } else {
      var i :| 0 <= i < |us| && us[i].username == name;
    }
  }

  /** Removing drops the first user of the name, and fails when there is none. */
  lemma RemovedExactly(us: seq<User>, name: Bytes)
    ensures (forall u :: u in us ==> u.username != name) ==> Removed(us, name) == None
    ensures forall a, u, b ::
              us == a + [u] + b && u.username == name && (forall v :: v in a ==> v.username != name) ==>
                Removed(us, name) == Some(a + b)
  {
    if forall u :: u in us ==> u.username != name {
      LookupUnique(us, name, |us|);
    }
    forall a: seq<User>, u: User, b: seq<User> |
      us == a + [u] + b && u.username == name && (forall v :: v in a ==> v.username != name)
      ensures Removed(us, name) == Some(a + b)
    {
      assert us[|a|] == u && us[..|a|] == a && us[|a| + 1..] == b;
      assert forall i :: 0 <= i < |a| ==> us[i] == a[i];
      LookupUnique(us, name, |a|);
    }
  }

  /** The table after calls of remove_user, those that fail included. */
  function RemovedAll(us: seq<User>, names: seq<Bytes>): seq<User> {
    if names == [] then us
    else match Removed(us, names[0])
      case None => RemovedAll(us, names[1..])
      case Some(vs) => RemovedAll(vs, names[1..])
  }

  lemma {:induction false} OthersStay(us: seq<User>, names: seq<Bytes>, u: User)
    requires u.username !in names
    requires Lookup(us, u.username) < |us| && us[Lookup(us, u.username)] == u
    ensures var vs := RemovedAll(us, names);
            && |vs| <= |us|
            && Lookup(vs, u.username) < |vs| && vs[Lookup(vs, u.username)] == u
            && forall v :: v in vs ==> v in us
  {
    if names != [] {
      match Removed(us, names[0])
      case None => OthersStay(us, names[1..], u);
      case Some(vs) =>
        var k, j := Lookup(us, u.username), Lookup(us, names[0]);
        var l := if k < j then k else k - 1;
        assert vs[l] == u;
        assert forall i :: 0 <= i < l ==> vs[i].username != u.username;
        OthersStay(vs, names[1..], u);
    }
  }

  /** A user added with a storable name can log in with the role given, after
      any removals of others, a save and a reload. */
  lemma CredentialsPersist(us: seq<User>, name: Bytes, password: Bytes, role: int, salt: Bytes, gone: seq<Bytes>)
    requires forall i :: 0 <= i < |us| ==> Storable(us[i])
    requires PlainField(name, NAME_ROOM) && name[0] != HASH_SIGN && |salt| == SALT_SIZE
    requires -0x8000_0000 <= role < 0x8000_0000
    requires Added(us, name, password, role, salt).Some? && name !in gone
    ensures var vs := RemovedAll(Added(us, name, password, role, salt).value, gone);
            && LoadFrom(SaveText(vs), 0) == vs
            && Authenticate(LoadFrom(SaveText(vs), 0), name, password) == Some(role)
  {
    hide Matches, Hash, Hex;
    var u := NewUser(name, password, role, salt);
    NewUserMatches(name, password, role, salt);
    var ws := us + [u];
    assert u.username == name;
    assert Lookup(ws, name) == |us| by {
      assert ws[|us|].username == name;
      assert forall i :: 0 <= i < |us| ==> ws[i] == us[i];
    }
    OthersStay(ws, gone, u);
    var vs := RemovedAll(ws, gone);
    assert forall i :: 0 <= i < |vs| ==> vs[i] in ws;
    ReloadIsIdentity(vs);
  }

  /** Of that user's AUTH exactly the passwords are accepted whose hash with the
      user's salt is that of the password that was given to add_user. */
  lemma PasswordDecides(us: seq<User>, name: Bytes, password: Bytes, role: int, salt: Bytes, gone: seq<Bytes>,
                        tried: Bytes)
    requires forall i :: 0 <= i < |us| ==> Storable(us[i])
    requires PlainField(name, NAME_ROOM) && name[0] != HASH_SIGN && |salt| == SALT_SIZE
    requires -0x8000_0000 <= role < 0x8000_0000
    requires Added(us, name, password, role, salt).Some? && name !in gone
    ensures var vs := RemovedAll(Added(us, name, password, role, salt).value, gone);
            Authenticate(LoadFrom(SaveText(vs), 0), name, tried) ==
            if Hash(tried, Hex(salt)) == Hash(password, Hex(salt)) then Some(role) else None
  {
    hide Matches, Hash, Hex, LoadFrom, SaveText, Authenticate, Added, RemovedAll, Removed;
    CredentialsPersist(us, name, password, role, salt, gone);
    AddedExactly(us, name, password, role, salt);
    assert Ascii("$") == [DOLLAR];
    var ws := Added(us, name, password, role, salt).value;
    var u := ws[|us|];
    assert u.username == name;
    LookupUnique(ws, name, |us|);
    OthersStay(ws, gone, u);
    var vs := RemovedAll(ws, gone);
    var hex := Hex(salt);
    assert forall i :: 0 <= i < |hex| ==> hex[i] != DOLLAR;
    SaltedDecides(vs, Lookup(vs, name), hex, Hash(password, hex), tried);
  }

  /** A line with fewer than three fields is no user, and what follows a third is
      ignored. */
  lemma FieldsDecide(name: Bytes, hash: Bytes, role: int, more: Bytes)
    requires PlainField(name, NAME_ROOM) && name[0] != HASH_SIGN && PlainField(hash, HASH_ROOM)
    requires -0x8000_0000 <= role < 0x8000_0000 && NUL !in more && NEWLINE !in more
    ensures ParseUser(name + [NEWLINE]) == None && ParseUser(name + [COLON] + hash + [NEWLINE]) == None
    ensures ParseUser(name + [COLON] + hash + [COLON] + PrintInt(role) + [COLON] + more + [NEWLINE]) ==
            Some(User(name, hash, role))
  {
    hide PrintInt, Atoi, ParseUser;
    var digits := PrintInt(role);
    assert COLON !in digits && NEWLINE !in digits && NUL !in digits;
    AtoiUndoesPrint(role);
    OneField(name);
    TwoFields(name, hash);
    ThreeFields(name, hash, digits, more);
  }

  lemma ThreeFields(name: Bytes, hash: Bytes, digits: Bytes, more: Bytes)
    requires PlainField(name, NAME_ROOM) && name[0] != HASH_SIGN && PlainField(hash, HASH_ROOM)
    requires digits != [] && COLON !in digits && NEWLINE !in digits && NUL !in digits
    requires NUL !in more && NEWLINE !in more
    ensures ParseUser(name + [COLON] + hash + [COLON] + digits + [COLON] + more + [NEWLINE]) ==
            Some(User(name, hash, Atoi(digits)))
  {
    hide Atoi, StrTok, Content;
    var line := name + [COLON] + hash + [COLON] + digits + [COLON] + more;
    ContentOf(line);
    assert (line + [NEWLINE])[0] == name[0];
    var third := digits + [COLON] + more;
    assert line == name + [COLON] + (hash + [COLON] + third);
    StrTokField(name, COLON, hash + [COLON] + third);
    StrTokField(hash, COLON, third);
    StrTokField(digits, COLON, more);
  }

  lemma OneField(name: Bytes)
    requires PlainField(name, NAME_ROOM)
    ensures ParseUser(name + [NEWLINE]) == None
  {
    ContentOf(name);
    StrTokField(name, COLON, []);
    assert StrTok([], COLON) == None;
  }

  lemma TwoFields(name: Bytes, hash: Bytes)
    requires PlainField(name, NAME_ROOM) && PlainField(hash, HASH_ROOM)
    ensures ParseUser(name + [COLON] + hash + [NEWLINE]) == None
  {
    ContentOf(name + [COLON] + hash);
    StrTokField(name, COLON, hash);
    StrTokField(hash, COLON, []);
    assert StrTok([], COLON) == None;
  }

  /** A line that starts with '#', or is empty, is no user. */
  lemma CommentIsNoUser(text: Bytes)
    requires text != [] && (text[0] == 35 || text[0] == 10)
    ensures ParseUser(text) == None
  {
  }

  // Names

  ghost predicate NamesUnique(us: seq<User>) {
    forall i, j :: 0 <= i < j < |us| ==> us[i].username != us[j].username
  }

  /** Adding keeps names unique exactly when the name, cut to its field, is new. */
  lemma AddKeepsNamesUnique(us: seq<User>, name: Bytes, password: Bytes, role: int, salt: Bytes)
    requires NamesUnique(us) && Added(us, name, password, role, salt).Some?
    ensures NamesUnique(Added(us, name, password, role, salt).value) <==>
            forall i :: 0 <= i < |us| ==> us[i].username != Cut(name, NAME_ROOM)
    ensures |name| <= NAME_ROOM ==> NamesUnique(Added(us, name, password, role, salt).value)
  {
    hide Hash, Hex;
    var ws := Added(us, name, password, role, salt).value;
    forall i | 0 <= i < |us| && NamesUnique(ws) ensures us[i].username != Cut(name, NAME_ROOM) {
      assert ws[i] == us[i] && ws[|us|].username == Cut(name, NAME_ROOM);
    }
  }

  /** A longer name is not recognised when it is added again. */
  lemma LongNameAddedTwice(us: seq<User>, name: Bytes, password: Bytes, role: int, salt: Bytes)
    requires |us| + 2 <= MAX_USERS && |name| > NAME_ROOM
    requires forall i :: 0 <= i < |us| ==> |us[i].username| <= NAME_ROOM
    ensures Added(us, name, password, role, salt).Some?
    ensures var ws := Added(us, name, password, role, salt).value;
            Added(ws, name, password, role, salt).Some? && !NamesUnique(Added(ws, name, password, role, salt).value)
  {
    hide Hash, Hex;
    var u := NewUser(name, password, role, salt);
    var ws := us + [u];
    assert forall i :: 0 <= i < |ws| ==> ws[i].username != name;
    assert (ws + [u])[|us|].username == (ws + [u])[|ws|].username;
  }

  lemma {:induction false} RemovalKeepsNamesUnique(us: seq<User>, name: Bytes)
    requires NamesUnique(us) && Removed(us, name).Some?
    ensures NamesUnique(Removed(us, name).value)
    ensures Lookup(Removed(us, name).value, name) == |us| - 1
  {
    var k := Lookup(us, name);
    var vs := us[..k] + us[k + 1..];
    forall i | 0 <= i < |vs| ensures vs[i].username != name {
      assert us[k].username == name;
      assert vs[i] == us[if i < k then i else i + 1];
    }
  }
}
