/** The static user array of the server and the calls that change it. Each call
    holds auth_mutex from start to end, so each is one step here. */
module UserStores {
  import opened CBytes
  import opened TextFiles
  import opened Hashing
  import opened Users

  const ADMIN: Bytes := Ascii("admin")

  /** The table after init_auth found no file: the default user is added if that
      is possible. */
  function WithAdmin(us: seq<User>, salt: Bytes): seq<User> {
    match Added(us, ADMIN, ADMIN, ROLE_ADMIN, salt) case None => us case Some(vs) => vs
  }

  /** A server that found no file of users has one user then, an administrator whose
      name and password are "admin". */
  lemma AdminLogsIn(salt: Bytes, name: Bytes, password: Bytes)
    requires |salt| == 16
    ensures Authenticate(WithAdmin([], salt), name, password) ==
            if name == Ascii("admin") && Hash(password, Hex(salt)) == Hash(Ascii("admin"), Hex(salt))
            then Some(2) else None
  {
    hide Hash, Hex;
    AddedExactly([], ADMIN, ADMIN, ROLE_ADMIN, salt);
    assert Ascii("$") == [DOLLAR];
    var us := WithAdmin([], salt);
    assert us[0].username == ADMIN == Ascii("admin");
    if name == ADMIN {
      var hex := Hex(salt);
      assert forall i :: 0 <= i < |hex| ==> hex[i] != DOLLAR;
      SaltedDecides(us, 0, hex, Hash(ADMIN, hex), password);
    } else {
      UnknownIsRefused(us, name, password);
    }
  }

  /** The contents with one position left out. */
  lemma Shifted(was: seq<User>, now: seq<User>, found: nat)
    requires found < |was| && |now| == |was| - 1
    requires forall j :: 0 <= j < found ==> now[j] == was[j]
    requires forall j {:trigger now[j]} :: found <= j < |now| ==> now[j] == was[j + 1]
    ensures now == was[..found] + was[found + 1..]
  {
    forall j | found <= j < |now| ensures now[j] == was[found + 1..][j - found] {
    }
  }

  class UserStore {
    const users: array<User>
    var numUsers: nat
    var path: Bytes               // auth_file_path
    var files: map<Bytes, Bytes>  // the text files of the host, by pathname

    ghost predicate Valid() reads this {
      users.Length == MAX_USERS && numUsers <= MAX_USERS
    }

    ghost function Contents(): seq<User>
      requires Valid()
      reads this, users
    {
      users[..numUsers]
    }

    constructor (files: map<Bytes, Bytes>)
      ensures Valid() && fresh(users) && Contents() == [] && path == [] && this.files == files
    {
      users := new User[MAX_USERS](_ => User([], [], ROLE_GUEST));
      numUsers := 0;
      path := [];
      this.files := files;
    }

    method Find(name: Bytes) returns (k: nat)
      requires Valid()
      ensures k == Lookup(Contents(), name)
    {
      k := 0;
      while k < numUsers && users[k].username != name
        invariant k <= numUsers
        invariant forall i :: 0 <= i < k ==> users[i].username != name
      {
        k := k + 1;
      }
    }

    method AuthenticateUser(name: Bytes, password: Bytes, role: int) returns (rc: int, newRole: int)
      requires Valid()
      ensures match Authenticate(Contents(), name, password)
              case Some(r) => rc == 0 && newRole == r
              case None => rc == -1 && newRole == role
    {
      hide Hash;
      rc, newRole := -1, role;
      var i := Find(name);
      if i < numUsers {
        var stored := users[i].passwordHash;
        var separator := IndexOf(stored, DOLLAR);
        if separator < |stored| {
          var hash := HashPassword(password, stored[..separator]);
          if stored[separator + 1..] == hash {
            rc, newRole := 0, users[i].role;
          }
        } else {
          var hash := HashPassword(password, []);
          if stored == hash {
            rc, newRole := 0, users[i].role;
          }
        }
      }
    }

    method GenerateSalt(random: Bytes) returns (salt: Bytes)
      ensures salt == Hex(random)
    {
      var bytes := new Byte[|random|](i requires 0 <= i < |random| => random[i]);
      assert bytes[..] == random;
      salt := HexString(bytes);
    }

    method AddUser(name: Bytes, password: Bytes, role: int, random: Bytes) returns (rc: int)
      requires Valid() && |random| == SALT_SIZE
      modifies this`numUsers, users
      ensures Valid()
      ensures match Added(old(Contents()), name, password, role, random)
              case Some(us) => rc == 0 && Contents() == us
              case None => rc == -1 && Contents() == old(Contents())
    {
      hide Hash, Hex;
      if numUsers >= MAX_USERS {
        return -1;
      }
      var i := Find(name);
      if i < numUsers {
        return -1;
      }
      var salt := GenerateSalt(random);
      var hash := HashPassword(password, salt);
      users[numUsers] := User(Cut(name, NAME_ROOM), Cut(salt + [DOLLAR] + hash, HASH_ROOM), role);
      numUsers := numUsers + 1;
      return 0;
    }

    method RemoveUser(name: Bytes) returns (rc: int)
      requires Valid()
      modifies this`numUsers, users
      ensures Valid()
      ensures match Removed(old(Contents()), name)
              case Some(us) => rc == 0 && Contents() == us
              case None => rc == -1 && Contents() == old(Contents())
    {
      var found := Find(name);
      if found == numUsers {
        return -1;
      }
      ShiftDown(found);
      numUsers := numUsers - 1;
      return 0;
    }

    method ShiftDown(found: nat)
      requires Valid() && found < numUsers
      modifies users
      ensures users[..numUsers - 1] == old(users[..found] + users[found + 1..numUsers])
    {
      ghost var was := users[..numUsers];
      var i := found;
      while i < numUsers - 1
        invariant found <= i <= numUsers - 1
        invariant forall j :: 0 <= j < found ==> users[j] == was[j]
        invariant forall j {:trigger users[j]} :: found <= j < i ==> users[j] == was[j + 1]
        invariant forall j :: i <= j < numUsers ==> users[j] == was[j]
      {
        assert users[i + 1] == was[i + 1];
        users[i] := users[i + 1];
        i := i + 1;
      }
      Shifted(was, users[..numUsers - 1], found);
      assert old(users[..found]) == was[..found] && old(users[found + 1..numUsers]) == was[found + 1..];
    }

    method SaveAuthFile() returns (rc: int)
      requires Valid()
      modifies this`files
      ensures rc == if path == [] then -1 else 0
      ensures files == if path == [] then old(files) else old(files)[path := SaveText(Contents())]
    {
      if path == [] {
        return -1;
      }
      var text := [];
      var i := 0;
      while i < numUsers
        invariant i <= numUsers && files == old(files)
        invariant text == PrintUsers(users[..i])
      {
        PrintUsersSnoc(users[..i], users[i]);
        assert users[..i + 1] == users[..i] + [users[i]];
        text := text + (PrintUser(users[i]) + [NEWLINE]);
        i := i + 1;
      }
      files := files[path := HEADER_TITLE + [NEWLINE] + (HEADER_FORMAT + [NEWLINE] + text)];
      return 0;
    }

    method InitAuth(authFile: Bytes, random: Bytes) returns (rc: int)
      requires Valid() && |random| == SALT_SIZE
      modifies this, users
      ensures Valid() && rc == 0 && path == Cut(authFile, 1023)
      ensures path in old(files) ==> Contents() == LoadFrom(old(files)[path], 0) && files == old(files)
      ensures path !in old(files) ==> Contents() == WithAdmin(old(Contents()), random)
      ensures path !in old(files) ==>
                files == if path == [] then old(files) else old(files)[path := SaveText(Contents())]
    {
      path := Cut(authFile, 1023);
      if path !in files {
        var added := AddUser(ADMIN, ADMIN, ROLE_ADMIN, random);
        var saved := SaveAuthFile();
        return 0;
      }
      ReadUsers(files[path]);
      return 0;
    }

    method ReadUsers(file: Bytes)
      requires Valid()
      modifies this`numUsers, users
      ensures Valid() && Contents() == LoadFrom(file, 0)
    {
      hide ParseUser, Fgets;
      numUsers := 0;
      var rest := file;
      var next := Fgets(rest, LINE_BUFFER_SIZE);
      while next.Some? && numUsers < MAX_USERS
        invariant Valid() && next == Fgets(rest, LINE_BUFFER_SIZE)
        invariant LoadFrom(file, 0) == Contents() + LoadFrom(rest, numUsers)
        decreases |rest|
      {
        var parsed := ParseUser(next.value.text);
        if parsed.Some? {
          users[numUsers] := parsed.value;
          numUsers := numUsers + 1;
        }
        rest := next.value.rest;
        next := Fgets(rest, LINE_BUFFER_SIZE);
      }
    }
  }
}
