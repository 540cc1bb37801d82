# CileServer: a model of the file server and its client

CileServer serves a directory tree over TCP. A client sends framed requests, a
7-byte header with a path and data behind it, and gets one framed response for
each. The server runs one thread per connection over a table of 100 slots, keeps
one role per slot, and resolves every request's path below a configured root.

This project is a Dafny model of that system together with proofs about it. The
code that changes things step by step is modelled as code: methods with loops
over arrays, sockets, the disk, the user array and the slot arrays. Each method
is proved to compute a function of the bytes and the state it starts from, and
the theorems about whole connections, whole runs and whole files are lemmas about
those functions.

| file | what it models |
|---|---|
| `cbytes.dfy`, `textfiles.dfy` | bytes, C strings, network byte order; `%d`, `atoi`, `fgets` (section 7.21.7.2 of C11), `strtok_r` (section 7.24.5.8 of C11) |
| `bits.dfy`, `hashing.dfy`, `users.dfy`, `userstore.dfy` | the salted hash, the user table and its file (`src/auth.c`) |
| `config.dfy` | the configuration and its file (`src/config.c`) |
| `paths.dfy` | a file tree with symbolic links and pathname resolution over it, following section 4.13 of the POSIX.1-2017 Base Definitions |
| `resolve.dfy`, `answers.dfy`, `stability.dfy`, `files.dfy`, `fileops.dfy`, `containment.dfy`, `detours.dfy`, `outside.dfy`, `reading.dfy`, `outcomes.dfy` | `get_full_path`, the file operations, and what they can change and tell (`src/file_ops.c`) |
| `sockets.dfy` | a stream socket: the bytes still to come, an arbitrary schedule of partial, interrupted and failing reads and writes |
| `requests.dfy`, `streams.dfy`, `protocol.dfy` | requests, how a byte stream is cut into them, and the handlers (`src/protocol.c`) |
| `commands.dfy`, `gate.dfy` | every command told from the outside, and what a client gets before it has logged in |
| `server.dfy` | the read loops of one connection (`src/server.c`) |
| `client.dfy`, `roundtrip.dfy` | the client's end and both ends together (`src/client.c`) |
| `slots.dfy`, `slotproofs.dfy`, `aftermath.dfy`, `confinement.dfy`, `sessions.dfy`, `clienttable.dfy` | the client table as a step machine: accept loop, workers, mutex, shutdown, and what it does for one connection alone (`src/server.c`) |
| `interleave.dfy`, `uploads.dfy` | uploads that run at the same time |

`Requests.Exec` is the meaning of one request whose data has arrived whole,
`Streams.HandleOne` that of one request on a byte stream, `Streams.Serve` that of
a whole connection. What a request does is said a second time from the outside, in
the numbers and texts of the protocol and by where its path leads (`Commands`,
`Outcomes`), and the step of the hash in the integers of the source
(`Hashing.Mixes`); lemmas connect the two. `Slots.Do` is one step of the concurrent
server, and every statement about "every run" quantifies over all lists of steps
from `Slots.Initial`. A step that is not possible in a state leaves it unchanged, so
all interleavings are covered.

## What the code does not do

Some properties one would expect are false of the code. For each of them there
is an input that shows it, and the exact condition under which it holds is
proved.

* A request that is refused, or is not a PUT, and does not fit the 4096-byte
  buffer is answered before its data has been read, and the next request is read
  from the middle of that data (`Streams.OversizedDelete`). `Streams.WholeRequest`:
  a request is consumed exactly if and only if it fits the buffer or is a PUT that
  opens its file.
* `get_full_path` re-appends the last component of a path that does not resolve
  without resolving it. If that component is a dangling symbolic link, `fopen`
  follows it and creates a file outside the root
  (`Containment.DanglingLinkEscapes`). `Answers.PutChangesBelowOnly` and, for the
  request on the stream, `RoundTrip.PutRequestStaysBelow`: a PUT changes
  nothing outside the root, whatever its data, if and only if the link that the
  answer ends in leads to the root or below, or, when it ends in none, the root's
  own name fits the 1024-byte buffer. When the links at and below the root are
  relative and without "..", or there are none, and there is room for the root's
  name in that buffer, no connection (`Containment.SessionStaysBelow`) and no run of
  the concurrent server (`Confinement.RunStaysBelow`) changes anything outside the
  root.
* The link re-appended can also be one that leads to a file: `realpath` gives up
  after 40 links, `fopen` starts counting anew, and a GET of forty times "d/" and
  then "l", with "d" a link to ".", sends the file outside the root that "l" leads
  to (`Outside.LinksRunOut`). `Answers.GetIsContained`: the file read is at or below
  the root if and only if the link that the answer ends in leads there, or, when it
  ends in none, the root's own name fits the buffer.
* `realpath` sees the whole file system, so with ".." in a request path the answer
  can tell whether a directory outside the root exists (`Outside.DotsSeeOutside`).
  A path makes a detour when, by its names alone, it leaves the ancestors and the
  subtree of the root and comes back to the root or below, by names that a file
  system can have. `Detours.AnswersDependOnRootExactly`: over trees without links
  the answer depends on the subtree at the root alone if and only if the path makes
  no detour. `Reading.SessionsAgree`: so do all replies of a connection whose paths
  make none.
* `shutdown_server` joins the workers while it holds the mutex that each of them
  needs to finish (`SlotProofs.ShutdownCanStick`).
  `SlotProofs.ShutdownNeedsEmptyTable`: it gets past its joins if and only if no
  slot was occupied as it took the mutex.
* Saving and loading a configuration can change it (`Configs.DefaultRootIsLost`).
  `Configs.RestoredExactly`: over the defaults the server starts with it is restored
  if and only if a line of the file can carry each of its two strings.
* A response to GET can announce another length than it has
  (`Streams.EmptiedFileIsNoFrame`, `Streams.HugeFileIsNoFrame`). `Streams.ReplyIsFrame`:
  a reply is a complete frame if and only if it carries no file or what is read has
  the announced size modulo 2^32. A name of 1024 bytes or more is cut for the second
  lookup, after the header has gone out, so one file's size can announce another
  file's bytes. `Streams.DeclaredBytesSent` covers a file that changes its size.
* A login with a long name or password can fail although both are right.
  `Client.CredentialsArrive`: the server reads what was given, whatever the
  uninitialised bytes of the message, if and only if both are shorter than 63
  bytes.
* The client can lose its place on the stream. `receive_response` leaves the text of
  an AUTH_REQUIRED reply unread, so that the next reply's header is read from it
  (`Commands.TextReadAsHeader`). `Client.ReceiveResponse`: after a reply that arrives
  whole and is shorter than the caller's buffer the stream is at the next reply if
  and only if the reply does not ask to log in or has no text; without a buffer, as
  for GET, the body is always left.
* `add_user` can add the same name twice (`Users.LongNameAddedTwice`).
  `Users.AddKeepsNamesUnique`: names stay unique if and only if the name, cut to its
  field, is new.

Where documents and code disagree the code is followed: `tests/test_file_ops.c:89-90`
expects `is_path_valid` to reject `..`, which `src/file_ops.c:116-122` leaves to
the resolution of the path.

## Model

| member | source | states |
|---|---|---|
| `CBytes.U32RoundTrip` | src/protocol.c:50-52 | reading a 32-bit field in network byte order undoes writing it, for every 32-bit value |
| `CBytes.NetworkOrder` | src/protocol.c:50-52 | both integer fields are written as the digits to the base 256, the high one first |
| `TextFiles.AtoiUndoesPrint` | src/auth.c:102 | `atoi` undoes `%d` on every `int`, negative ones included |
| `TextFiles.AtoiReadsNumber` | src/config.c:131-137 | spaces before a number and anything that is no digit after it do not change what `atoi` reads, and text that starts no number reads as 0 |
| `TextFiles.FgetsLine` | src/auth.c:90 | a line that fits the buffer is read whole with its newline, and what follows is left for the next call |
| `TextFiles.StrTokField` | src/auth.c:95-97 | the next token is the field printed before a delimiter, and the rest is what follows the delimiter |
| `TextFiles.StrTokSkips` | src/auth.c:95-97 | any number of delimiters before a token is skipped |
| `Bits.XorBits` | src/auth.c:29 | each bit of the exclusive or is set if and only if exactly one of the two is |
| `Bits.OrBits` | src/auth.c:29 | each bit of the or is set if and only if one of the two is |
| `Hashing.StepInverse` | src/auth.c:28-30 | one in-place mixing step has a two-sided inverse, because the two bytes it reads beside its own are never the byte it writes |
| `Hashing.MixingIsPermutation` | src/auth.c:23-32 | for every password and salt the 1000 rounds of 32 in-place steps are a permutation of the 32-byte states |
| `Hashing.MixesAt` | src/auth.c:26-29 | the step at position i of a round replaces that byte alone, by the exclusive or of the sum of old byte, password byte, salt byte and round modulo 256 with half the next byte and the low bit of the one after as the high bit |
| `Hashing.HashIsLastState` | src/auth.c:18-37 | the hash is the last of any 32001 states that start with zeros and follow, 32 to a round for 1000 rounds, by that step |
| `Hashing.HashHasTrace` | src/auth.c:18-37 | for every password and salt there are such states |
| `Hashing.Hash` | src/auth.c:18-39 | the hash is always 64 lower-case hexadecimal digits |
| `Hashing.HexDenotes` | src/auth.c:34-37 | the two digits printed for each byte denote that byte, the high digit first |
| `Hashing.DigitIsText` | src/auth.c:36 | the digits are `0` to `9` and `a` to `f` |
| `Hashing.MixOneRound` | src/auth.c:25-31 | the inner loop over the array computes the round function of its old contents |
| `Hashing.HashPassword` | src/auth.c:18-39 | the two nested loops and the printing loop compute the specified hash of password and salt |
| `Users.ParseUndoesPrint` | src/auth.c:91-103 | parsing the line printed for a user gives that user back, and the line fits the 256-byte buffer |
| `Users.ReloadIsIdentity` | src/auth.c:220-246 | saving any table of storable users and loading the file gives the same table in the same order |
| `Users.SavedText` | src/auth.c:231-240 | the file is the two comment lines and, for each user, name, hash and role with colons between |
| `Users.FieldsDecide` | src/auth.c:91-103 | a line with fewer than three fields is no user, and what follows a third is ignored |
| `Users.CommentIsNoUser` | src/auth.c:91 | a line that starts with `#`, whatever it says, is no user |
| `Users.LongLineIsSplit` | src/auth.c:88-91 | a line longer than the 256-byte buffer is read in pieces of 255 bytes, each taken for a line |
| `Users.AddedExactly` | src/auth.c:158-187 | a user is added, as the last one, if and only if there are fewer than 100 and the name is in none of them, with the salt in hexadecimal, `$` and the hash with that salt |
| `Users.RemovedExactly` | src/auth.c:193-214 | the first user of the name is dropped and no other, and without such a user nothing |
| `Users.SaltedDecides` | src/auth.c:118-138 | for the first user of its name, with a stored `salt$hash`, a password is accepted if and only if its hash with that salt is the stored one |
| `Users.UnsaltedDecides` | src/auth.c:138-147 | for a stored field without `$` if and only if the hash without salt is the whole field |
| `Users.UnknownIsRefused` | src/auth.c:118-156 | nobody is accepted under a name that is not in the table |
| `Users.NewUserMatches` | src/auth.c:178-184 | the salt$hash stored for a new user is whole in its field, free of separators, and accepted for the user's password |
| `Users.OthersStay` | src/auth.c:193-218 | any sequence of removals of other names leaves a user the first of its name and invents no user |
| `Users.CredentialsPersist` | src/auth.c:114-246 | after adding a user, any removals of others, a save and a load, the user's password is accepted with the role it was added with, and the loaded table is the saved one |
| `Users.PasswordDecides` | src/auth.c:114-246 | of the user of that table exactly the passwords are accepted whose hash with the user's salt is that of the password given to `add_user`; all others are refused |
| `Users.AddKeepsNamesUnique` | src/auth.c:167-176 | adding keeps names unique if and only if the name cut to its 63-byte field is new; always for names of up to 63 bytes |
| `Users.LongNameAddedTwice` | src/auth.c:167-176 | every name longer than 63 bytes can be added twice, which makes names not unique |
| `Users.RemovalKeepsNamesUnique` | src/auth.c:193-218 | removing keeps names unique and the removed name is gone |
| `UserStores.UserStore.AuthenticateUser` | src/auth.c:114-156 | the search and the salted or unsalted comparison accept exactly what the table's first user of that name allows; on failure the caller's role is untouched |
| `UserStores.UserStore.AddUser` | src/auth.c:158-191 | the array gains exactly the new user, or, when full or the name is known, keeps its contents and reports -1 |
| `UserStores.UserStore.RemoveUser` | src/auth.c:193-218 | the array loses exactly the first user of that name, or keeps its contents and reports -1 |
| `UserStores.UserStore.ShiftDown` | src/auth.c:210-212 | the copying loop closes the gap: what remains is the array without the removed position, in order |
| `UserStores.UserStore.SaveAuthFile` | src/auth.c:220-246 | the file's text is the two comment lines and one line per user; no other file and no user changes |
| `UserStores.UserStore.ReadUsers` | src/auth.c:88-105 | the reading loop leaves the table that the file's lines denote, at most 100 users, skipping comments and incomplete lines |
| `UserStores.UserStore.InitAuth` | src/auth.c:60-112 | with a file the table is the file's; without one the default administrator is added and the table saved |
| `UserStores.AdminLogsIn` | src/auth.c:70-80 | without a file exactly the name `admin` is accepted, with the passwords that hash like `admin`, as administrator |
| `Configs.RestoredExactly` | src/config.c:45-113 | over defaults whose root is absolute or can be read from a line and whose file name can, every configuration is restored by saving and loading if and only if both of its strings are non-empty, do not start with a space, contain no `=`, newline or NUL, and fit the 1024-byte line buffer with their name |
| `Configs.DefaultRootIsLost` | src/config.c:18-90 | a configuration with the default root `/a=b` is not restored |
| `Configs.DefaultsAreUsable` | src/config.c:18-32 | the defaults meet what `Configs.RestoredExactly` asks of them, whether the working directory is known or not |
| `Configs.DefaultText` | src/config.c:18-32 | saving the defaults writes exactly the file with the working directory, 100 connections, port 8080, log level 1, no authentication and `users.auth` |
| `Configs.NamedFields` | src/config.c:123-147 | each of the six names sets its own field, and any other name none |
| `Configs.CommentIsIgnored` | src/config.c:63-65 | a line that starts with `#` assigns nothing, whatever it says |
| `Configs.SpacesAreSkipped` | src/config.c:76-81 | any number of spaces before the name and before the value changes nothing |
| `Configs.LoadSaved` | src/config.c:45-113 | for every default and every 32-bit value the loaded configuration is the saved one, an empty string being replaced by its default |
| `Configs.LoadedIsReadable` | src/config.c:61-83 | whatever the file holds, each string that was loaded is the default or one that a saved file can carry |
| `Configs.ServerConfig.LoadConfig` | src/config.c:45-90 | the reading loop computes the last-line-wins fold of the file's assignments over the defaults, which alone apply without a file |
| `Configs.ServerConfig.SetConfigValue` | src/config.c:123-147 | a known name changes its own field only; an unknown one changes nothing and reports -1 |
| `Configs.ServerConfig.SaveConfig` | src/config.c:92-113 | the text written is the one whose loading the round trip is about |
| `Paths.WalkAppend` | src/file_ops.c:42-52 | resolving a path in two stages is resolving the whole, links and `..` included |
| `Paths.WalkSound` | src/file_ops.c:42 | what resolution finds is a node that is no link; what it reports missing is an absent, validly named entry of a directory |
| `Paths.SplitAbsolute` | src/file_ops.c:64-85 | splitting the canonical pathname of a node gives back the node's component list |
| `Paths.ResolveRender` | src/file_ops.c:64-85 | the canonical pathname of a node resolves to that node |
| `Paths.ByteTestIsAncestry` | src/file_ops.c:70-81 | on canonical pathnames the `strncmp` and boundary test accepts exactly the root and its descendants; a root of `/` accepts only itself |
| `Resolve.FullPathIsContained` | src/file_ops.c:17-86 | every successful result is the pathname of an existing node, or of a would-be entry of one, cut at 4095 bytes; it is at or below the resolved root, or the root's own name |
| `Answers.AnswerShape` | src/file_ops.c:64-85 | the result as cut to the caller's buffer names an entry of an existing directory, at or below the root as far as the buffer holds the root's name |
| `Resolve.PutTargetRefines` | src/protocol.c:248-253 | `realpath`, the parent fallback, the byte test and `fopen` together are one resolution followed by a tree-ancestry test, when the re-appended component is no link |
| `Resolve.MissingIsFullPath` | src/file_ops.c:42-62 | every missing entry at or below the root gets through, under its canonical pathname |
| `Containment.LeadingSlashesIgnored` | src/file_ops.c:25-29 | any number of extra leading slashes never changes the result |
| `Containment.ResolutionIsIdempotent` | src/file_ops.c:17-86 | resolving the root-relative rest of a result for an existing path gives that result again, when the path composed of root and rest fits its 2048-byte buffer |
| `Containment.OpensWhatIsNamed` | src/protocol.c:248-253 | the file a PUT opens is the very entry that the result in the caller's buffer denotes if and only if that entry is no link |
| `Answers.PutIsContained` | src/protocol.c:248-253 | the file a PUT opens is at or below the root if and only if the link its name ends in leads there, or, when it ends in none, the root's own name fits the 1024-byte buffer |
| `Answers.PutChangesBelowOnly` | src/protocol.c:248-283 | a PUT changes nothing outside the root, whatever its data, under exactly that condition |
| `Answers.GetIsContained` | src/protocol.c:195-219 | the file found for a GET is at or below the root if and only if the link its name ends in leads there, or, when it ends in none, the root's own name fits the buffer |
| `Containment.LevelOpensBelow` | src/protocol.c:248-253 | when the links at and below the root are relative and without `..`, and the root's name fits the 1024-byte buffer, every PUT opens a file at or below the root, also when its name is cut |
| `Containment.LinklessTarget` | src/protocol.c:248-253 | over a tree without links a PUT's path is resolved once and tested for ancestry |
| `Containment.DanglingLinkEscapes` | src/file_ops.c:42-62 | a tree in which a PUT through a dangling link passes the test and creates a file outside the root |
| `Outside.LinksRunOut` | src/file_ops.c:42-62 | a tree with two links in which a GET whose path takes up all 40 links is answered with a file outside the root |
| `Containment.NoLinksIsClean` | src/file_ops.c:42-62 | without symbolic links the fallback never meets one |
| `Containment.ExecStaysBelow` | src/protocol.c:89-124 | a request changes nothing outside the root, unless it is a PUT that opens a file there |
| `Containment.ExecKeepsRoot` | src/file_ops.c:64-68 | no request makes the root's name resolve to another node |
| `Containment.SessionStaysBelow` | src/server.c:239-248 | when the links at and below the root are relative and without `..`, and the root's name fits the 1024-byte buffer, no connection, whatever bytes it sends in whatever role, changes anything outside the root |
| `Confinement.RunStaysBelow` | src/server.c:105-262 | under the same condition no run of the server on any connections, however their steps interleave, changes anything outside the root |
| `Detours.FullPathFrom` | src/file_ops.c:17-86 | without links the answer to a path is determined by where its names, and all but the last of them, lead from the root's own node |
| `Detours.SameFullPath` | src/file_ops.c:17-86 | a path that stays on the ancestors and the subtree of the root is answered alike over two linkless trees that agree at and below the root |
| `Detours.StraightFullPath` | src/file_ops.c:17-86 | so is every path that makes no detour, one that ends outside being refused over both |
| `Detours.DetourShows` | src/file_ops.c:42-62 | for every path that makes a detour there are two such trees that answer it differently |
| `Detours.AnswersDependOnRootExactly` | src/file_ops.c:17-86 | over linkless trees the answer depends on the subtree at the root alone if and only if the path makes no detour |
| `Outcomes.LeadsFromRoot` | src/file_ops.c:17-52 | what is resolved for a path of at most 1023 bytes are its names from the root's own node on, links and `..` included; slashes alone lead to the root |
| `Outcomes.AnswerIsWhereItLeads` | src/file_ops.c:40-86 | the answer is the canonical name of where the path leads at or below the root; any other answer names nothing |
| `Outcomes.MkdirExactly` | src/file_ops.c:276-294 | a directory is made if and only if the path is not empty and leads to a missing entry at or below the root, and exactly there |
| `Outcomes.DeleteExactly` | src/file_ops.c:192-223 | exactly the file, or the directory with nothing in it, that the path leads to at or below the root is removed, and anything else refused |
| `Outcomes.DeleteOfLink` | src/file_ops.c:203-217 | when the answer is the name of a link, the link is removed and never what it leads to, if that is there and no directory |
| `Outcomes.InfoExactly` | src/file_ops.c:296-327 | exactly the nodes at or below the root that the path leads to are described |
| `Outcomes.NameReported` | src/file_ops.c:313-321 | the name reported is what follows the last slash, cut to 255 bytes |
| `Outcomes.GetExactly` | src/protocol.c:195-241 | exactly the files at or below the root that the path leads to are served, with their sizes and bytes |
| `Outcomes.ListExactly` | src/file_ops.c:225-274 | exactly the directories at or below the root that the path leads to are listed |
| `Outcomes.PackedListing` | src/protocol.c:187-193 | the body has, in reading order, one record of 280 bytes for each of the first 100 entries that can be described, with its name and the node it is or leads to |
| `Reading.SessionsAgree` | src/server.c:239-248 | over two linkless trees that agree at and below the root a connection whose paths make no detour gets the same replies and roles, and leaves trees that agree there |
| `Reading.NoTwoDotsIsPlain` | src/server.c:175-248 | no path of a connection makes a detour when its bytes nowhere hold two dots in a row |
| `Reading.ShortPathsFit` | src/server.c:175-248 | over linkless trees every name fits the 1024-byte buffer when root and path together do, for each request sent |
| `Outside.DotsSeeOutside` | src/file_ops.c:42-62 | with `..` the answer differs between two trees that differ outside the root only |
| `Stability.WalkStable` | src/file_ops.c:42-52 | creating entries and rewriting files never changes where another pathname leads |
| `Stability.PutTargetStable` | src/protocol.c:248-253 | a PUT's target is not moved by other entries appearing or files changing, when its name fits the buffer or ends in no link |
| `Stability.CleanAnswerStable` | src/file_ops.c:17-86 | an answer of any length that ends in no link stays the same when entries other than links appear, also when the path now resolves through the other branch |
| `Stability.FewerLinks` | src/file_ops.c:42-52 | a resolution with fewer links left ends in the same place or fails, and does so over the extended tree as over the tree |
| `Stability.PutIsFound` | src/file_ops.c:40-62 | once a PUT has written its file below the root, the same request path leads to it, through one branch or the other |
| `Stability.CreatedIsFound` | src/file_ops.c:40-62 | once a missing target exists, the same request path resolves to it through the other branch |
| `Files.DeleteRemovesOne` | src/file_ops.c:192-223 | a successful deletion removes exactly one node, with nothing under it, and the rest stays a tree; the node is at or below the root when the root's name fits the buffer |
| `Files.MkdirAddsOne` | src/file_ops.c:276-294 | a successful creation adds exactly one directory where nothing was; it is at or below the root when the root's name fits the buffer |
| `Files.DeleteUndoesMkdir` | src/file_ops.c:192-294 | deleting a directory just made gives back exactly the tree there was |
| `Files.DeleteUndoesPut` | src/file_ops.c:192-223 | deleting a file just put under a new name gives back exactly the tree there was |
| `FileOps.Disk.BuildPath` | src/file_ops.c:17-38 | the calls of `strncpy` and `strncat` on the 2048-byte buffer build the specified path for every root and request, cut where the buffer ends |
| `FileOps.Disk.ResolveInto` | src/file_ops.c:40-62 | both branches leave in the 4096-byte buffer what the specification says, or fail with it |
| `FileOps.Disk.GetFullPath` | src/file_ops.c:17-86 | the code over its buffers succeeds exactly when the specification does and leaves its result, cut to the caller's buffer |
| `FileOps.Disk.GetFileInfo` | src/file_ops.c:296-327 | the name, the node and with it size and type are those of the specification, or there are none |
| `FileOps.Disk.DeleteFile` | src/file_ops.c:192-223 | the tree becomes the specified one, or stays and -1 is reported |
| `FileOps.Disk.CreateDirectory` | src/file_ops.c:276-294 | the tree becomes the specified one, or stays and -1 is reported |
| `FileOps.Disk.ListDirectory` | src/file_ops.c:225-274 | the entries are those of the directory in its reading order, without `.` and `..` and those that cannot be described, at most 100 |
| `Sockets.Connection.WriteAll` | src/protocol.c:141-152 | under every schedule of partial and interrupted writes, success means that all of the data went out, and failure that a front part of it did |
| `Requests.Words` | src/protocol.c:86-123 | the length passed along with each fixed reply is the length of its text |
| `Requests.HeaderDeclares` | src/protocol.c:127-135 | a header and a body are one complete frame if and only if the body has the announced size modulo 2^32 |
| `Commands.FrameLayout` | src/protocol.c:127-155 | a reply is its status, the length of its body modulo 2^32 with the high byte first, and the body |
| `Commands.RequestLayout` | src/client.c:92-124 | a request is its command, both lengths with their high bytes first, the path and the data |
| `Commands.AskedExactly` | src/protocol.c:82-87 | every request gets a reply, and it is the one that asks to log in if and only if authentication is on, the role is guest and the command is not AUTH; then the reply is the same over every tree and neither tree nor role changes |
| `Commands.RefusedToRole` | src/auth.c:248-277 | a command on files is answered with the refusal, and does nothing, if and only if a guest gives one of PUT, DELETE and MKDIR or the role is not one of the three |
| `Commands.ListCommand` | src/protocol.c:179-193 | LIST of a permitted role answers with exactly the records of the directory that the path leads to, or with the failure text |
| `Commands.GetCommand` | src/protocol.c:195-241 | GET of a permitted role answers with exactly the file that the path leads to, or with the failure text |
| `Commands.PutCommand` | src/protocol.c:243-290 | PUT of a permitted role writes exactly the file or missing entry that the path leads to, or says why not |
| `Commands.DeleteCommand` | src/protocol.c:300-304 | DELETE of a permitted role removes exactly what `Outcomes.DeleteExactly` says and answers with the text for it |
| `Commands.MkdirCommand` | src/protocol.c:306-310 | MKDIR of a permitted role makes exactly what `Outcomes.MkdirExactly` says and answers with the text for it |
| `Commands.InfoCommand` | src/protocol.c:312-317 | INFO of a permitted role answers with the record of exactly the node that the path leads to |
| `Commands.AuthCommand` | src/protocol.c:91-171 | AUTH with 128 bytes or more logs in with the strings at bytes 0 and 64, and answers in the words of the outcome |
| `Commands.OtherCommands` | src/protocol.c:100-123 | LOGOUT makes the session a guest's, and any other number is answered as unknown |
| `Commands.TextReadAsHeader` | src/client.c:126-147 | the text left behind by a reply that asks to log in reads as a header with an unknown status and more than a gigabyte to come |
| `Gate.UntilGranted` | src/server.c:239-248 | with authentication on, until a guest's first granted AUTH every request is answered with the refusal of `Commands.AskedExactly`, or of the failed AUTH, whatever the tree is, and the rest of the connection goes on with the tree it started with |
| `Gate.StrangersLearnNothing` | src/server.c:239-248 | a connection without a granted AUTH leaves the tree as it was, stays a guest, and what it hears is a function of what it sends alone |
| `Gate.AskedInSession` | src/server.c:239-248 | in every connection the reply that asks to log in goes exactly to the requests other than AUTH that come in while the role is guest, and to none with authentication off |
| `Requests.OnlyWritersChangeTree` | src/protocol.c:82-124 | the tree changes only for PUT, DELETE and MKDIR, and only in the role of a user or administrator |
| `Requests.RoleFollowsSession` | src/protocol.c:82-177 | the role changes only by an AUTH that the user table grants, to that user's role, or by LOGOUT, to guest |
| `Requests.NoUsersNoWrites` | src/server.c:86-93 | without users a guest stays a guest, changes nothing and opens no file for writing |
| `Requests.ListsTheEntries` | src/file_ops.c:225-274 | the listing has exactly one record for each entry other than `.`, `..` and links that lead nowhere, in reading order, with its name and the node it is or leads to, up to the room for 100 |
| `Requests.EntryIsItsNode` | src/file_ops.c:253-264 | an entry that is no link is described as itself |
| `Streams.DecodeCollected` | src/server.c:214-236 | what `handle_client` passes on is decoded by `process_request` as exactly the request it collected |
| `Streams.CollectEncoded` | src/server.c:175-236 | of an encoded request and anything after it, command, path and the first window of data are collected, and the rest is left |
| `Streams.CollectedExactly` | src/server.c:175-233 | of the first k bytes of a request a request is made if and only if they hold header, path and first window and the path has fewer than 1024 bytes; it has the command and the path up to its first NUL |
| `Streams.WholeRequest` | src/server.c:175-237 | an encoded request is carried out as that request with no byte after it consumed if it fits the buffer or is a PUT that opens its file, and the stream is left at the next request only then |
| `Streams.UnreadDataIsNext` | src/protocol.c:84-87 | of any other request the data beyond the window is left on the stream, to be read as the next request |
| `Streams.OversizedDelete` | src/protocol.c:112-113 | a DELETE with 5000 bytes of data leaves 912 of them on the stream |
| `Streams.ServedInOrder` | src/server.c:239-248 | a stream of encoded requests is served as exactly that sequence of requests, in order, until one ends the connection |
| `Streams.InterruptedPut` | src/protocol.c:253-289 | a PUT cut off in the first window changes nothing; cut off later, the file holds exactly the bytes that arrived; neither is answered |
| `Streams.DeclaredBytesSent` | src/protocol.c:205-238 | when the file's length while it is read differs from its size before, the declared number of bytes is sent if and only if the file is longer and the declared size is a multiple of 4096 |
| `Streams.GetAnswersFile` | src/protocol.c:195-241 | GET of a file that does not change is answered with its size and exactly its bytes, everything else with an error |
| `Streams.ReplyIsFrame` | src/protocol.c:82-317 | a request ends the connection if and only if it is a GET whose file cannot be opened the second time; any other reply is one complete frame if and only if it carries no file or what is read of it has the announced size modulo 2^32 |
| `Streams.CutNameIsRead` | src/protocol.c:205-240 | when the name as cut to 1024 bytes names a directory nothing follows the announced size, and when it names another file that file's bytes do |
| `Streams.FittingReplyIsFrame` | src/protocol.c:82-317 | when the name fits the buffers, the reply is one complete frame unless it carries a file of 4 GiB or more |
| `Streams.EmptiedFileIsNoFrame` | src/protocol.c:205-238 | a file of one byte that is emptied after its size was read is not answered with a frame |
| `Streams.HugeFileIsNoFrame` | src/protocol.c:208 | a file of 4 GiB is announced as empty |
| `Streams.RepliesAreFrames` | src/server.c:239-248 | a connection answers every request that returned 0 with one complete frame, in the order of the requests |
| `Streams.UnframeFlatten` | src/client.c:126-176 | the peer can cut a stream of frames back into the replies by their declared lengths |
| `Streams.HandleKeepsTree` | src/server.c:175-237 | whatever bytes arrive, the served tree stays a tree |
| `Streams.SmallFilesKept` | src/protocol.c:264-282 | no request makes a file of 4 GiB or more where there was none |
| `Protocol.SendResponse` | src/protocol.c:127-156 | a reply is one complete frame of the given data, or a front part of it and a failure |
| `Protocol.HandleAuth` | src/protocol.c:158-171 | only the slot's own role changes, and exactly when the table accepts the credentials; the reply says which |
| `Protocol.HandleLogout` | src/protocol.c:173-177 | the slot's role becomes guest and no other slot's role changes |
| `Protocol.HandleList` | src/protocol.c:179-193 | the reply carries the records of the listing, or says why there is none |
| `Protocol.StreamFile` | src/protocol.c:219-240 | under every schedule of partial writes, exactly the first min(L, 4096 * ceil(s / 4096)) bytes of a file of length L and announced size s go out |
| `Protocol.HandleGet` | src/protocol.c:195-241 | header and body are the specified reply, and the connection ends after the header when the file cannot be opened again |
| `Protocol.ReceiveFile` | src/protocol.c:263-283 | under every schedule of reads the open file grows by exactly the bytes that arrived, at most the number announced, and `remaining` never underflows |
| `Protocol.HandlePut` | src/protocol.c:243-290 | the target holds exactly the bytes received, no other node changes, nothing but the payload is read, and success is answered exactly when all of it arrived |
| `Protocol.HandleDelete` | src/protocol.c:300-304 | permission, tree and reply are those of the specified deletion |
| `Protocol.HandleMkdir` | src/protocol.c:306-310 | permission, tree and reply are those of the specified creation |
| `Protocol.HandleInfo` | src/protocol.c:312-317 | the reply describes the node the path leads to, or says that there is none |
| `Protocol.Dispatch` | src/protocol.c:89-124 | the branch taken and all of its effects are those of the request's meaning |
| `Protocol.ProcessRequest` | src/protocol.c:43-125 | for every content of the buffer, what is done to tree, role, input and output is what the decoded request means; an undecodable one does nothing |
| `Server.Fill` | src/server.c:180-233 | under every schedule of partial and interrupted reads the loop succeeds exactly when enough bytes arrive, puts exactly those in the buffer and terminates |
| `Server.CollectRequest` | src/server.c:175-233 | the three read loops put in the buffer what decodes to the request at the front of the stream, and leave the rest of the stream |
| `Server.HandleClient` | src/server.c:175-237 | tree, role, reply and remaining input are a function of the bytes that arrive, whatever the schedule |
| `Server.ServeConnection` | src/server.c:239-248 | for every schedule the replies, the role after each request and the final tree are those of the session the bytes determine; when a reply cannot be written, a prefix of the replies has gone out and the tree is as that request left it; no other slot's role changes |
| `Server.SplitsDoNotMatter` | src/server.c:175-248 | two connections delivering the same bytes under any two schedules get the same replies and leave the same tree and the same sequence of roles |
| `Client.SendRequest` | src/client.c:92-124 | header, path and data go out in this order, whole or as a front part with a failure |
| `Client.ReceiveResponse` | src/client.c:126-176 | 0 is returned only for a success whose body is in the buffer or still to be read, and certainly if header and body each arrive whole; -2 exactly for AUTH_REQUIRED; after a whole reply that fits the buffer the stream is at the next one if and only if it is not AUTH_REQUIRED or has no text |
| `Client.CredentialsArrive` | src/client.c:185-187 | whatever the two bytes that `strncpy` leaves uninitialised, the server reads the given name and password if and only if both are shorter than 63 bytes |
| `Client.Authenticate` | src/client.c:178-205 | what goes out is exactly the encoded AUTH request, and success means that the server said so |
| `Client.SendFile` | src/client.c:387-407 | the chunks that go out are the whole file in order, or a front part of it and a failure |
| `Client.PutFile` | src/client.c:345-426 | what goes out is exactly the encoded PUT request of the file, nothing for a path ending in a slash; success means that the server said so |
| `Client.ReceiveBody` | src/client.c:322-340 | for every split of the body what is in the local file is a prefix of it, and exactly the declared number of bytes on success |
| `Client.GetFile` | src/client.c:292-343 | on success the local file holds exactly the declared body; success is certain when the header arrives whole and no read is interrupted |
| `RoundTrip.RefusedPut` | src/protocol.c:243-256 | a PUT that opens no file is never answered with success |
| `RoundTrip.PutRequestStaysBelow` | src/server.c:175-237 | a PUT request on the stream, whatever its data, changes nothing outside the root if and only if the condition of `Answers.PutIsContained` holds |
| `RoundTrip.AcceptedPut` | src/protocol.c:243-290 | success is answered if and only if a file was opened; then it holds exactly the content and the stream is at the next request |
| `RoundTrip.GetFindsPut` | src/protocol.c:195-290 | GET of a path just put finds exactly the content, also when the file is new and the path now resolves through the other branch, and when it ends in a link |
| `RoundTrip.PutThenGet` | src/protocol.c:195-290 | after a PUT answered with success, in a role that may write, a GET of the same path is answered with one frame whose body is the content |
| `RoundTrip.PutGetEndToEnd` | src/client.c:292-426 | the client's upload followed by its download leaves exactly the uploaded bytes in the local file, for every split of the bodies |
| `RoundTrip.UploadAndDownload` | src/client.c:292-426 | with the code of both ends running, upload followed by download leaves exactly the uploaded bytes in the local file, for every schedule of all reads and writes |
| `RoundTrip.LoginOverWire` | src/protocol.c:91-98 | the client's AUTH request is carried out as a login with exactly the credentials given, whenever they can be read off the message |
| `RoundTrip.AddedUserLogsIn` | src/auth.c:60-191 | after `add_user`, any removals of others, a save and a restart, the user's AUTH request gives the session the role it was added with |
| `RoundTrip.OnlyThatPasswordLogsIn` | src/auth.c:60-246 | that user's AUTH request with any other password is granted if and only if the password has the same hash with the user's salt; otherwise it is answered with the failure text and the role stays |
| `SlotProofs.StepKeepsInv` | src/server.c:105-262 | mutual exclusion, the table, the roles and the descriptor count are kept by every step of every thread |
| `SlotProofs.TableWhenFree` | src/server.c:122-145 | in every reachable state before shutdown with the mutex free, `num_clients` counts the occupied slots, each has exactly one worker that has not cleaned up, and every such worker has its slot |
| `SlotProofs.AcceptFindsSlot` | src/server.c:123-139 | whenever a connection is let in, the search for a free slot succeeds |
| `SlotProofs.AdmittedExactly` | src/server.c:122-145 | in every reachable state a connection is let in if and only if one of the 100 slots is free; it gets the first of them as a guest, and otherwise its descriptor is closed |
| `SlotProofs.DescriptorsAccounted` | src/server.c:122-145 | in every reachable state, shutdown included, each accepted descriptor is waiting to be stored, in exactly one slot, or closed exactly once, and only one of these |
| `SlotProofs.FoldFollows` | src/protocol.c:158-177 | serving a request changes the role as the fold of AUTH and LOGOUT over the connection's requests does, and a file is opened for writing only in a role that may write |
| `Sessions.RunIsSession` | src/server.c:239-248 | a run in which one worker alone steps through its connection's requests ends with the tree and the role that the connection's bytes determine, and touches no other slot or worker |
| `Sessions.ConnectionLife` | src/server.c:105-262 | a server at rest that takes one connection and serves it alone, from `accept` to cleanup, is at rest again, with the tree that the connection's bytes determine for a guest, the descriptor closed once, its slot free and no other slot or worker changed |
| `Sessions.LostReplyEnds` | src/server.c:244-248 | a reply that cannot be written ends the connection |
| `SlotProofs.RoleIsFoldOfOwnRequests` | src/server.c:126-127 | in every reachable state a slot's role is the fold of its current connection's own requests |
| `SlotProofs.ChangesAreAuthorized` | src/protocol.c:84-119 | in every reachable state a step that changes the tree belongs to a PUT, DELETE or MKDIR of a worker whose own requests make it a user or administrator |
| `SlotProofs.RolesAreIsolated` | src/server.c:236-255 | a slot's role changes only by its own worker, or to guest when a new connection is stored in it |
| `Aftermath.FreeSlotsAreGuests` | src/server.c:250-259 | in every reachable state before shutdown a free slot has the role of a guest |
| `Aftermath.ShutdownEmptiesTable` | src/server.c:158-166 | a shutdown that gets past its joins leaves no slot occupied and counts no client |
| `SlotProofs.AuthOffIsReadOnly` | src/server.c:86-99 | with `enable_auth` off no run of requests on any connections changes the tree or raises a role above guest |
| `SlotProofs.ShutdownNeedsEmptyTable` | src/server.c:151-173 | shutdown can get past its join loop if and only if no slot is occupied as it takes the mutex |
| `SlotProofs.ShutdownCanStick` | src/server.c:151-173 | a run of seven steps after which shutdown never gets past its join loop |
| `SlotProofs.RunStaysStuck` | src/server.c:158-165 | once shutdown waits for a worker that needs the mutex, it waits in every continuation |
| `Slots.FreeSlotExists` | src/server.c:124-125 | with fewer than 100 slots occupied the search finds a free one |
| `ClientTables.ClientTable.constructor` | src/server.c:95-99 | the arrays after initialisation are those of the initial state |
| `ClientTables.ClientTable.Admit` | src/server.c:122-145 | the critical section on the arrays is the run of the three steps of the model: slot, role, count and closed descriptor included |
| `ClientTables.ClientTable.Cleanup` | src/server.c:250-259 | the critical section on the arrays is the cleanup step of the model |
| `Interleave.PlayStaysApart` | src/protocol.c:253-283 | at every point of every schedule each opened target holds exactly what its own upload has written, and everything else is as it was |
| `Interleave.InterleavingsAgree` | src/protocol.c:243-290 | any two complete interleavings of uploads to distinct targets leave the same tree |
| `Interleave.InterleavingIsSerial` | src/protocol.c:243-290 | every complete interleaving leaves the tree that the uploads leave one after another, in any order |
| `Uploads.RunIsPlay` | src/protocol.c:243-290 | workers of the concurrent server that take the steps of a schedule of uploads do to the tree what the schedule does |
| `Uploads.ConcurrentUploadsAreSerial` | src/server.c:239-248 | uploads to distinct targets by any workers of the concurrent server end, under every complete interleaving, in the tree they end in one after another |

## Left out

- Starting up and stopping: socket creation, binding, listening, `accept` errors, signals, argument parsing, `init_file_ops` creating a missing root, and NULL arguments.
- Logging, message texts on the terminal, the client's password prompt and its retry after AUTH_REQUIRED, and the client's list, delete and mkdir commands, which send one request and print one reply like those that are modelled.
- `file_info_t` in memory: its layout and modification time are an arbitrary function of the node (`Env.pack`), and the order in which a directory is read is arbitrary (`Env.readdir`).
- Permission bits, disk-full and other errors of the host's file system; the files of the user table and of the configuration can always be written.
- Strength and collisions of the hash; the 16 salt bytes are arbitrary. Loaded salts are shorter than 64 bytes, as `src/auth.c:126-129` expects.
- The calls of the user table are one step each, since each holds `auth_mutex` from start to end, except that `init_auth` gives the mutex up before it adds the default administrator.
- `strtok_r` cuts its line in place; it is modelled on values. Numbers outside the range of `int`, for which `atoi` is undefined, saturate at 64 bits and wrap at 32.
- AUTH fields without a terminating NUL: the model reads to the end of the data that was received, the code on into its buffer.
- The resolution of pathnames is the operating system's; it is modelled over a tree with a limit of 40 links, names of up to 255 and results of up to 4095 bytes. Mount points, hard links and changes made by other programs are not modelled.
- SlotProofs.ChangesAreAuthorized: a request other than a PUT that opens its file is one step of the concurrent server, and so is one write of a chunk; file offsets of two PUTs that write the same file at once, and deleting a file while it is being written, are not modelled.
- Server.SplitsDoNotMatter: one connection at a time; what other connections do meanwhile is covered by the concurrent model, which does not go down to bytes.
- Client.PutFile: starts with the request; the login that comes before it when credentials are set is `Client.Authenticate`, and the local file can be read.
- The reply to LIST is cut at 100 records; a client buffer of 4096 bytes that a longer listing overflows is not modelled.
- A root that resolves to `/` fails the boundary test for everything below it (`Paths.ByteTestIsAncestry`); theorems that ask for another root say so.
- Results that do not fit the 1024-byte buffers of GET and PUT or the 2048-byte buffer of the other operations are cut by the code and by the model. Where a cut name breaks the property, the theorem asks that the name fits: `Short`, `FitsBuffer`, `GetFits`, `Settled`.
- Resolve.PutTargetRefines: asks that the re-appended component is no link and that the names fit; `Answers.PutIsContained` is the exact statement for every path.
- Resolve.MissingIsFullPath: asks that the re-appended component is no link, since a link gets through under its own name and not under that of what it leads to.
- Outcomes.MkdirExactly: asks that the re-appended component is no link and that the names fit the 2048-byte buffer, as do Outcomes.AnswerIsWhereItLeads, Outcomes.DeleteExactly, Outcomes.InfoExactly, Outcomes.ListExactly and, for the 1024-byte buffers, Outcomes.GetExactly; a link re-appended is covered by `Outcomes.DeleteOfLink`, `Answers.PutIsContained` and `Answers.GetIsContained`.
- Commands.ListCommand: asks the same, as do the lemmas of the other commands, and that the entries' pathnames fit.
- Outcomes.LeadsFromRoot: asks for a root other than `/` and for a path of at most 1023 bytes, which is all that the server accepts.
- Stability.CreatedIsFound: asks that the re-appended component is no link; `Stability.PutIsFound` covers links for PUT.
- Stability.PutTargetStable: asks that the result fits the 1024-byte buffer or ends in no link, since a cut name that comes from a link changes once another upload has created what the link leads to.
- Interleave.PlayStaysApart: asks that the result of every upload fits the 1024-byte buffer or ends in no link, as do Interleave.InterleavingsAgree, Interleave.InterleavingIsSerial and Uploads.ConcurrentUploadsAreSerial.
- Uploads.ConcurrentUploadsAreSerial: as Interleave.PlayStaysApart.
- Files.DeleteUndoesMkdir: asks that the result fits its buffer, since a cut name can come to lead elsewhere once the directory is there.
- Files.DeleteUndoesPut: asks that the names fit and that the re-appended component is no link, since DELETE can then remove the link in place of the file.
- Containment.ResolutionIsIdempotent: asks that root and rest fit the 2048-byte buffer together, since a cut path leads elsewhere.
- Containment.SessionStaysBelow: asks that the links at and below the root are relative and without `..`, as does Confinement.RunStaysBelow, since whether another link leads out can change with every directory that is made; what a single PUT does over any tree is stated exactly.
- Confinement.RunStaysBelow: as Containment.SessionStaysBelow.
- Containment.LevelOpensBelow: as Containment.SessionStaysBelow; `Answers.PutIsContained` is the exact statement for every tree.
- Containment.LinklessTarget: asks for a tree without links and for names that fit; `Answers.PutIsContained` is the exact statement.
- Containment.ExecStaysBelow: asks that the root's name fits the 2048-byte buffer, since a cut root is another node.
- Answers.AnswerShape: asks for a root other than `/`, below which no answer is given.
- Detours.AnswersDependOnRootExactly: asks for trees without links, for a root that is configured by its canonical name, and for a path and a root that fit their 1024-byte fields; the lemmas it is made of say which of them need this. With links whether a path sees outside depends on the tree and not on the path alone.
- Detours.SameFullPath: asks for trees without links, as do the other lemmas of `Detours`.
- Requests.ListsTheEntries: asks that the entries' pathnames fit the 2048-byte buffer, since a cut name describes another node.
- Streams.GetAnswersFile: asks that the name fits the 1024-byte buffer; `Streams.ReplyIsFrame` is the statement without.
- Streams.FittingReplyIsFrame: asks that the name fits the 1024-byte buffer; `Streams.ReplyIsFrame` is the statement without.
- Streams.RepliesAreFrames: asks that every name the connection meets fits the 1024-byte buffer and that no file has 4 GiB or more.
- RoundTrip.GetFindsPut: asks that the file opened is at or below the root and that the names fit, as do RoundTrip.PutThenGet, RoundTrip.PutGetEndToEnd and RoundTrip.UploadAndDownload.
- RoundTrip.AddedUserLogsIn: asks that the server reads the credentials that were given; with 63 bytes that depends on the uninitialised bytes of the message.
- Reading.SessionsAgree: asks for trees without links and for paths that make no detour, and that reading a directory below the root depends on that subtree alone and yields valid names.
- Reading.ShortPathsFit: asks for a tree without links, since the name of what a link leads to can be longer than the path.
- Stability.PutIsFound: asks that the file opened is at or below the root and that the names fit.
- An answer that is cut right after a slash has an empty last name. DELETE is then refused in the model, while `rmdir` accepts the trailing slash and removes an empty directory.
- A write to a connection that the peer has reset raises SIGPIPE, which the server does not ignore, so that the whole process ends; in the model only the connection fails.
