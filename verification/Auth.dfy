/** Bearer-token authentication: the token directory and the revocation file, both reloaded
    while requests are served, and the chain of authenticators. */
module Auth {
  import opened Bytes
  import opened TrimSpace

  const HASH: byte := 35
  const NEWLINE: byte := 10
  const RETURN: byte := 13

  // -------------------------------------------------------------- one decision

  datatype Claims = Claims(iss: Text, sub: Text, jti: Text)

  /** An authenticator between two reloads. What the libraries verify is a table from token text:
      the claims of a well-signed JWT, the identity of a good OIDC token. */
  datatype Member =
    | StaticMember(tokens: map<Text, Text>)
    | JwtMember(verified: map<Text, Claims>, checks: bool, revoked: set<Text>)
    | OidcMember(identities: map<Text, Text>)

  const ISSUER: Text := [108, 111, 110, 103, 115, 111, 99, 107, 115] // longsocks

  predicate Revoked(c: Claims, revoked: set<Text>) {
    c.sub in revoked || (c.jti != [] && c.jti in revoked)
  }

  function Decide(m: Member, token: Text): Option<Text> {
    match m
    case StaticMember(tokens) => if token in tokens && tokens[token] != [] then Some(tokens[token]) else None
    case JwtMember(verified, checks, revoked) =>
      if token !in verified then None
      else
        var c := verified[token];
        if c.iss != ISSUER || c.sub == [] || (checks && Revoked(c, revoked)) then None else Some(c.sub)
    case OidcMember(identities) => if token in identities then Some(identities[token]) else None
  }

  // ---------------------------------------------------------- token directories

  /** A directory entry; content is None when the file cannot be read. */
  datatype Entry = Entry(name: Text, isDir: bool, content: Option<Text>)

  predicate Eligible(e: Entry) { !e.isDir && !(e.name != [] && e.name[0] == DOT) }

  /** os.ReadDir gave a listing, and every token file in it can be read. */
  predicate Readable(listing: Option<seq<Entry>>) {
    listing.Some? && forall e | e in listing.value && Eligible(e) :: e.content.Some?
  }

  predicate HoldsToken(e: Entry, token: Text) {
    Eligible(e) && e.content.Some? && Trim(e.content.value) == token && token != []
  }

  /** The plain scan: the name of the last eligible file whose trimmed content is the token. */
  function Scan(entries: seq<Entry>, token: Text): Option<Text> {
    if entries == [] then None
    else
      var e := entries[|entries| - 1];
      if HoldsToken(e, token) then Some(e.name) else Scan(entries[..|entries| - 1], token)
  }

  function ScanDecision(entries: seq<Entry>, token: Text): Option<Text> {
    if Scan(entries, token) == Some([]) then None else Scan(entries, token)
  }

  /** The scan finds a name exactly when it is the name of the last entry that is a file, not hidden,
      readable and holds the token between white space. */
  lemma {:induction false} ScanFindsLast(entries: seq<Entry>, token: Text, name: Text)
    ensures Scan(entries, token) == Some(name) <==>
            exists i | 0 <= i < |entries| ::
              && entries[i].name == name && IsTokenFile(entries[i], token)
              && forall j | i < j < |entries| :: !IsTokenFile(entries[j], token)
  {
    if entries != [] {
      var n, before := |entries| - 1, entries[..|entries| - 1];
      ScanFindsLast(before, token, name);
      HoldsTokenExactly(entries[n], token);
      hide HoldsToken, IsTokenFile;
      assert forall i | 0 <= i < n :: before[i] == entries[i];
    }
  }

  /** A file whose name does not start with a dot and whose content is the token, which is not
      empty, between white space. */
  ghost predicate IsTokenFile(e: Entry, token: Text) {
    && !e.isDir && (e.name == [] || e.name[0] != DOT) && e.content.Some?
    && token != [] && Trimmed(token) && Padded(e.content.value, token)
  }

  lemma HoldsTokenExactly(e: Entry, token: Text)
    ensures HoldsToken(e, token) <==> IsTokenFile(e, token)
  {
    hide Trim, Trimmed, Padded;
    if e.content.Some? { TrimExactly(e.content.value, token); }
  }

  lemma {:induction false} EmptyTokenNeverScans(entries: seq<Entry>)
    ensures Scan(entries, []) == None
  {
    if entries != [] {
      EmptyTokenNeverScans(entries[..|entries| - 1]);
    }
  }

  /** A token index gives what the scan of these entries gives. */
  ghost predicate Indexes(tokens: map<Text, Text>, entries: seq<Entry>) {
    forall t :: Lookup(tokens, t) == Scan(entries, t)
  }

  lemma OneMoreEntry(tokens: map<Text, Text>, entries: seq<Entry>, e: Entry, next: map<Text, Text>)
    requires Indexes(tokens, entries)
    requires forall t :: Lookup(next, t) == if HoldsToken(e, t) then Some(e.name) else Lookup(tokens, t)
    ensures Indexes(next, entries + [e])
  {
    hide HoldsToken;
    assert (entries + [e])[..|entries|] == entries;
  }

  datatype StaticEvent = Rescan(listing: Option<seq<Entry>>) | Ask(token: Text)

  /** The listing of the last reload that succeeded. */
  function StaticSnapshot(events: seq<StaticEvent>): seq<Entry> {
    if events == [] then []
    else
      var e := events[|events| - 1];
      if e.Rescan? && Readable(e.listing) then e.listing.value else StaticSnapshot(events[..|events| - 1])
  }

  /** It is the one at the last position at which every visible file of a listing was readable. */
  lemma {:induction false} StaticSnapshotIs(events: seq<StaticEvent>, j: int)
    requires -1 <= j < |events|
    requires j >= 0 ==>
               && events[j].Rescan? && events[j].listing.Some?
               && forall e | e in events[j].listing.value ::
                    e.isDir || (e.name != [] && e.name[0] == DOT) || e.content.Some?
    requires forall k | j < k < |events| && events[k].Rescan? && events[k].listing.Some? ::
               exists e | e in events[k].listing.value ::
                 !e.isDir && (e.name == [] || e.name[0] != DOT) && e.content.None?
    ensures StaticSnapshot(events) == if j < 0 then [] else events[j].listing.value
  {
    if j < |events| - 1 {
      assert forall k | 0 <= k < |events| - 1 :: events[..|events| - 1][k] == events[k];
      StaticSnapshotIs(events[..|events| - 1], j);
    }
  }

  /** A request is answered by the last file of the snapshot that holds its token, by name. */
  lemma ScanAfterExactly(before: seq<StaticEvent>, token: Text, name: Text)
    ensures ScanAfter(before, Ask(token)) == Some(name) <==>
            name != [] && var entries := StaticSnapshot(before);
            exists i | 0 <= i < |entries| ::
              && entries[i].name == name && IsTokenFile(entries[i], token)
              && forall j | i < j < |entries| :: !IsTokenFile(entries[j], token)
  {
    var entries := StaticSnapshot(before);
    assert ScanAfter(before, Ask(token)) == Some(name) <==> name != [] && Scan(entries, token) == Some(name);
    hide *;
    ScanFindsLast(entries, token, name);
  }

  class StaticAuthenticator {
    var tokens: map<Text, Text>

    constructor Directory()
      ensures tokens == map[]
    {
      tokens := map[];
    }

    constructor Token(token: Text)
      ensures tokens == map[token := ANONYMOUS]
    {
      tokens := map[token := ANONYMOUS];
    }

    /** Swaps in an index that agrees with the scan, or leaves the old one. */
    method Reload(listing: Option<seq<Entry>>) returns (ok: bool)
      modifies this
      ensures ok <==> Readable(listing)
      ensures ok ==> Indexes(tokens, listing.value)
      ensures !ok ==> tokens == old(tokens)
    {
      if listing.None? { return false; }
      var loaded;
      ok, loaded := Load(listing.value);
      if ok { tokens := loaded; }
    }

    /** Reads every token file of a listing; a later file wins over an earlier one. */
    static method Load(entries: seq<Entry>) returns (ok: bool, loaded: map<Text, Text>)
      ensures ok <==> Readable(Some(entries))
      ensures ok ==> Indexes(loaded, entries)
    {
      loaded := map[];
      assert Indexes(loaded, []);
      hide Trim, Scan, Indexes, Eligible;
      var i := 0;
      while i < |entries|
        invariant 0 <= i <= |entries|
        invariant forall e | e in entries[..i] && Eligible(e) :: e.content.Some?
        invariant Indexes(loaded, entries[..i])
      {
        var e, earlier := entries[i], loaded;
        assert entries[..i + 1] == entries[..i] + [e] && e in entries;
        if Eligible(e) {
          if e.content.None? { return false, map[]; }
          var val := Trim(e.content.value);
          if val != [] {
            loaded := loaded[val := e.name];
          }
        }
        OneMoreEntry(earlier, entries[..i], e, loaded);
        i := i + 1;
      }
      assert entries[..i] == entries;
      ok := true;
    }

    /** Compares the token with every loaded value, in whatever order the map gives them. */
    method Authenticate(token: Text) returns (r: Option<Text>)
      ensures r == Decide(StaticMember(tokens), token)
    {
      var matched: Text := [];
      var left := tokens.Keys;
      while left != {}
        invariant left <= tokens.Keys
        invariant matched == if token in tokens.Keys - left then tokens[token] else []
        decreases left
      {
        var val :| val in left;
        if token == val { matched := tokens[val]; }
        left := left - {val};
      }
      r := if matched != [] then Some(matched) else None;
    }

    /** The index agrees with the scan of the last listing read completely. */
    ghost predicate Agrees(before: seq<StaticEvent>)
      reads this
    {
      Indexes(tokens, StaticSnapshot(before))
    }

    method Do(e: StaticEvent, ghost before: seq<StaticEvent>) returns (decision: Option<Text>)
      requires Agrees(before)
      modifies this
      ensures Agrees(before + [e])
      ensures decision == ScanAfter(before, e)
    {
      assert (before + [e])[..|before|] == before;
      hide Readable, Scan;
      match e {
        case Rescan(listing) =>
          var ok := Reload(listing);
          decision := None;
        case Ask(token) =>
          assert Lookup(tokens, token) == Scan(StaticSnapshot(before), token);
          decision := Authenticate(token);
      }
    }

    /** Any interleaving of reloads and requests: each decision is the scan of the one listing
        that was last read completely. */
    method Run(events: seq<StaticEvent>) returns (decisions: seq<Option<Text>>)
      requires tokens == map[]
      modifies this
      ensures |decisions| == |events|
      ensures forall i | 0 <= i < |events| :: decisions[i] == ScanAfter(events[..i], events[i])
    {
      decisions := [];
      assert Agrees([]);
      var i := 0;
      while i < |events|
        invariant 0 <= i <= |events| && |decisions| == i && Agrees(events[..i])
        invariant forall k | 0 <= k < i :: decisions[k] == ScanAfter(events[..k], events[k])
      {
        hide Agrees, ScanAfter;
        assert events[..i + 1] == events[..i] + [events[i]];
        var d := Do(events[i], events[..i]);
        decisions := decisions + [d];
        i := i + 1;
      }
    }
  }

  /** The answer to a request that comes after the events before it; none for a reload. */
  function ScanAfter(before: seq<StaticEvent>, e: StaticEvent): Option<Text> {
    if e.Ask? then ScanDecision(StaticSnapshot(before), e.token) else None
  }

  const ANONYMOUS: Text := [97, 110, 111, 110, 121, 109, 111, 117, 115]

  // ------------------------------------------------------------ revocation files

  /** The file at one reload: absent, not to be opened, or its bytes and whether reading them failed. */
  datatype RevokeFile = Missing | Unreadable | Content(bytes: Text, ioError: bool)

  /** bufio.MaxScanTokenSize: a line this long or longer, its carriage return included, ends the scan. */
  const MAX_LINE: nat := 65536

  /** The lines of a file; what follows the last newline is one too unless it is empty. */
  function Lines(content: Text): seq<Text> {
    var parts := Split(content, NEWLINE);
    if parts[|parts| - 1] == [] then parts[..|parts| - 1] else parts
  }

  /** A line without one trailing carriage return, as the scanner hands it out. */
  function DropCR(line: Text): Text {
    if line != [] && line[|line| - 1] == RETURN then line[..|line| - 1] else line
  }

  /** The name on a line, unless it is blank or a comment. */
  function NameOn(line: Text): Option<Text> {
    var name := Trim(DropCR(line));
    if name != [] && name[0] != HASH then Some(name) else None
  }

  predicate Lists(line: Text, x: Text) { NameOn(line) == Some(x) }

  /** The names that lines list, as the loader collects them. */
  function Names(lines: seq<Text>): set<Text> {
    if lines == [] then {}
    else Names(lines[..|lines| - 1]) + match NameOn(lines[|lines| - 1]) case Some(n) => {n} case None => {}
  }

  lemma {:induction false} NamesAreListed(lines: seq<Text>, x: Text)
    ensures x in Names(lines) <==> SomeLineLists(lines, x)
  {
    hide NameOn, Lists;
    if lines != [] {
      var t, line := lines[..|lines| - 1], lines[|lines| - 1];
      NamesAreListed(t, x);
      OneMoreLine(t, line, x);
      assert lines == t + [line];
      assert Lists(line, x) <==> NameOn(line) == Some(x) by { ListsMeansNamed(line, x); }
    }
  }

  lemma ListsMeansNamed(line: Text, x: Text)
    ensures Lists(line, x) <==> NameOn(line) == Some(x)
  {
  }

  lemma OneMoreLine(lines: seq<Text>, line: Text, x: Text)
    ensures SomeLineLists(lines + [line], x) <==> SomeLineLists(lines, x) || Lists(line, x)
  {
    hide Lists;
    assert line in lines + [line];
  }

  predicate SomeLineLists(lines: seq<Text>, x: Text) { exists line | line in lines :: Lists(line, x) }

  /** The plain reading of a revocation file. */
  predicate ListedIn(content: Text, x: Text) { SomeLineLists(Lines(content), x) }

  predicate ScansToTheEnd(content: Text) { forall line | line in Lines(content) :: |line| < MAX_LINE }

  /** The file is these pieces with newlines between them. */
  ghost predicate Pieces(content: Text, ls: seq<Text>) {
    |ls| >= 1 && (forall l | l in ls :: NEWLINE !in l) && Join(ls, NEWLINE) == content
  }

  /** The piece is x with white space around it, and x is neither empty nor a comment. */
  ghost predicate LineNames(line: Text, x: Text) {
    x != [] && x[0] != HASH && Trimmed(x) && Padded(line, x)
  }

  lemma NameOnExactly(line: Text, x: Text)
    ensures NameOn(line) == Some(x) <==> LineNames(line, x)
  {
    hide IsSpace, Trim, Trimmed, Padded;
    TrimExactly(line, x);
    CarriageReturnIsWhite(line);
  }

  lemma CarriageReturnIsWhite(line: Text)
    ensures Trim(DropCR(line)) == Trim(line)
  {
    var cut := DropCR(line);
    if cut != line {
      assert line == cut + [RETURN] && IsSpace([RETURN]);
      hide IsSpace, Trim, Padded, Trimmed, DropCR;
      TrimExactly(cut, Trim(cut));
      PaddedMore(cut, Trim(cut), [RETURN]);
      TrimExactly(line, Trim(cut));
    }
  }

  lemma LinesOfPieces(content: Text, ls: seq<Text>)
    requires Pieces(content, ls)
    ensures Lines(content) == if ls[|ls| - 1] == [] then ls[..|ls| - 1] else ls
  {
    SplitOfJoin(ls, NEWLINE);
  }

  /** How a file is read: whatever newline-free pieces it is made of, it is scanned to its end
      exactly when all of them have fewer than 65536 bytes, and it lists exactly the names that
      stand on them, the first, the last and all between. */
  lemma FileIsItsLines(content: Text, ls: seq<Text>, x: Text)
    requires Pieces(content, ls)
    ensures ScansToTheEnd(content) <==> forall l | l in ls :: |l| < 65536
    ensures ListedIn(content, x) <==> exists l | l in ls :: LineNames(l, x)
  {
    LinesOfPieces(content, ls);
    var lines, last := Lines(content), ls[|ls| - 1];
    assert ls == ls[..|ls| - 1] + [last];
    hide Lines, Lists, LineNames, Pieces, NameOn;
    assert forall l | l in lines :: l in ls;
    assert forall l | l in ls :: l in lines || l == [];
    forall l | l in ls ensures Lists(l, x) <==> LineNames(l, x) {
      NameOnExactly(l, x);
      ListsMeansNamed(l, x);
    }
    EmptyNamesNothing(x);
  }

  lemma FileIsItsLinesAlways(content: Text)
    ensures forall ls | Pieces(content, ls) ::
              && (ScansToTheEnd(content) <==> forall l | l in ls :: |l| < 65536)
              && (forall x :: ListedIn(content, x) <==> exists l | l in ls :: LineNames(l, x))
  {
    hide *;
    forall ls | Pieces(content, ls)
      ensures && (ScansToTheEnd(content) <==> forall l | l in ls :: |l| < 65536)
              && (forall x :: ListedIn(content, x) <==> exists l | l in ls :: LineNames(l, x))
    {
      FileIsItsLines(content, ls, []);
      forall x ensures ListedIn(content, x) <==> exists l | l in ls :: LineNames(l, x) {
        FileIsItsLines(content, ls, x);
      }
    }
  }

  lemma EmptyNamesNothing(x: Text)
    ensures !LineNames([], x)
  {
    NameOnExactly([], x);
    assert Trim([]) == [];
  }

  lemma SomePieces(content: Text)
    ensures Pieces(content, Split(content, NEWLINE))
  {
    JoinOfSplit(content, NEWLINE);
    SplitPartsFree(content, NEWLINE);
  }

  predicate ReadInFull(f: RevokeFile) { f.Content? && !f.ioError && ScansToTheEnd(f.bytes) }

  /** A text that some line of a readable file can stand for. */
  predicate Revocable(x: Text) {
    x != [] && x[0] != HASH && Trimmed(x) && NEWLINE !in x && |x| < MAX_LINE
  }

  /** What revocation files can revoke: exactly the non-empty texts of fewer than 65536 bytes
      without a newline, without white space at the ends, that do not look like a comment. */
  lemma RevocableExactly(x: Text)
    ensures (exists content: Text :: ScansToTheEnd(content) && ListedIn(content, x)) <==> Revocable(x)
  {
    if Revocable(x) {
      OwnLineLists(x);
      assert ScansToTheEnd(x) && ListedIn(x, x);
    }
    forall content: Text | ScansToTheEnd(content) && ListedIn(content, x)
      ensures Revocable(x)
    {
      ListedIsRevocable(content, x);
    }
  }

  lemma OwnLineLists(x: Text)
    requires Revocable(x)
    ensures ScansToTheEnd(x) && ListedIn(x, x)
  {
    SplitOfJoin([x], NEWLINE);
    assert Lines(x) == [x];
    assert x[|x| - 1..] == [x[|x| - 1]];
    assert !IsSpace(x[|x| - 1..]);
    TrimIsTrimmed(x);
    assert x in Lines(x) && Lists(x, x);
  }

  lemma ListedIsRevocable(content: Text, x: Text)
    requires ScansToTheEnd(content) && ListedIn(content, x)
    ensures Revocable(x)
  {
    var line :| line in Lines(content) && Lists(line, x);
    hide Split, Trimmed, Trim;
    SplitPartsFree(content, NEWLINE);
    var i, j := TrimCuts(DropCR(line));
    assert forall b | b in x :: b in line;
  }

  /** A subject that meets every other condition but spans two lines, "a\nb", is never revoked. */
  lemma NewlineSubjectIsNeverListed(content: Text)
    requires ScansToTheEnd(content)
    ensures !ListedIn(content, [97, NEWLINE, 98])
  {
    var x: Text := [97, NEWLINE, 98];
    RevocableExactly(x);
    assert x[1] == NEWLINE;
  }

  datatype JwtEvent = Recheck(file: RevokeFile) | Present(token: Text, verified: map<Text, Claims>)

  /** The bytes of the last revocation file that was read to its end. */
  function JwtSnapshot(events: seq<JwtEvent>): Text {
    if events == [] then []
    else
      var e := events[|events| - 1];
      if e.Recheck? && ReadInFull(e.file) then e.file.bytes else JwtSnapshot(events[..|events| - 1])
  }

  /** It is the one at the last position at which a file was read to its end. */
  lemma {:induction false} JwtSnapshotIs(events: seq<JwtEvent>, j: int)
    requires -1 <= j < |events|
    requires j >= 0 ==> events[j].Recheck? && ReadInFull(events[j].file)
    requires forall k | j < k < |events| && events[k].Recheck? :: !ReadInFull(events[k].file)
    ensures JwtSnapshot(events) == if j < 0 then [] else events[j].file.bytes
  {
    hide ReadInFull;
    if j < |events| - 1 {
      assert forall k | 0 <= k < |events| - 1 :: events[..|events| - 1][k] == events[k];
      JwtSnapshotIs(events[..|events| - 1], j);
    }
  }

  /** The decision computed from a snapshot alone. */
  predicate AcceptsUnder(content: Text, checks: bool, c: Claims) {
    && c.iss == ISSUER && c.sub != []
    && (checks ==> !ListedIn(content, c.sub) && (c.jti != [] ==> !ListedIn(content, c.jti)))
  }

  class JwtAuthenticator {
    const checks: bool
    var revoked: set<Text>

    constructor (checks: bool)
      ensures this.checks == checks && revoked == {}
    {
      this.checks, revoked := checks, {};
    }

    /** A missing file is no error and keeps what was loaded before; a file that is read replaces
        it by the names on all of its lines. */
    method LoadRevocations(f: RevokeFile) returns (ok: bool)
      modifies this
      ensures f.Content? ==> forall ls | Pieces(f.bytes, ls) ::
                && (ok <==> !f.ioError && forall l | l in ls :: |l| < 65536)
                && (ok ==> forall x :: x in revoked <==> exists l | l in ls :: LineNames(l, x))
      ensures ok <==> f.Missing? || ReadInFull(f)
      ensures ReadInFull(f) ==> forall x :: x in revoked <==> ListedIn(f.bytes, x)
      ensures !ReadInFull(f) ==> revoked == old(revoked)
    {
      if f.Missing? { return true; }
      if f.Unreadable? { return false; }
      hide *;
      FileIsItsLinesAlways(f.bytes);
      var scanned, loaded := Scan(Lines(f.bytes));
      if !scanned || f.ioError { return false; }
      forall x ensures x in loaded <==> ListedIn(f.bytes, x) { NamesAreListed(Lines(f.bytes), x); }
      revoked := loaded;
      return true;
    }

    /** The scanner loop: stops at the first line that is too long. */
    static method Scan(lines: seq<Text>) returns (ok: bool, loaded: set<Text>)
      ensures ok <==> forall line | line in lines :: |line| < MAX_LINE
      ensures ok ==> loaded == Names(lines)
    {
      hide Trim, DropCR;
      loaded := {};
      var i := 0;
      while i < |lines|
        invariant 0 <= i <= |lines|
        invariant forall line | line in lines[..i] :: |line| < MAX_LINE
        invariant loaded == Names(lines[..i])
      {
        assert lines[..i + 1][..i] == lines[..i] && lines[i] in lines;
        if |lines[i]| >= MAX_LINE { return false, {}; }
        var name := Trim(DropCR(lines[i]));
        if name != [] && name[0] != HASH {
          loaded := loaded + {name};
        }
        i := i + 1;
      }
      assert lines[..i] == lines;
      ok := true;
    }

    method Authenticate(token: Text, verified: map<Text, Claims>) returns (r: Option<Text>)
      ensures r == Decide(JwtMember(verified, checks, revoked), token)
    {
      if token !in verified { return None; }
      var c := verified[token];
      if c.iss != ISSUER { return None; }
      if c.sub == [] { return None; }
      if checks {
        var subRevoked, jtiRevoked := c.sub in revoked, c.jti in revoked;
        if subRevoked || (c.jti != [] && jtiRevoked) { return None; }
      }
      return Some(c.sub);
    }

    /** The revocation set is the reading of the last file read in full. */
    ghost predicate Agrees(before: seq<JwtEvent>)
      reads this
    {
      forall x :: x in revoked <==> ListedIn(JwtSnapshot(before), x)
    }

    method Do(e: JwtEvent, ghost before: seq<JwtEvent>) returns (decision: Option<Text>)
      requires Agrees(before)
      modifies this
      ensures Agrees(before + [e])
      ensures decision == DecisionAfter(before, checks, e)
    {
      assert (before + [e])[..|before|] == before;
      hide ListedIn, ReadInFull;
      match e {
        case Recheck(file) =>
          var ok := LoadRevocations(file);
          decision := None;
        case Present(token, verified) =>
          decision := Authenticate(token, verified);
      }
    }

    /** Any interleaving of reloads and requests: a token is accepted exactly when it verifies
        and the last revocation file read in full lists neither its subject nor its id. */
    method Run(events: seq<JwtEvent>) returns (decisions: seq<Option<Text>>)
      requires revoked == {}
      modifies this
      ensures |decisions| == |events|
      ensures forall i | 0 <= i < |events| :: decisions[i] == DecisionAfter(events[..i], checks, events[i])
      ensures forall i, ls | 0 <= i < |events| && events[i].Present? && Pieces(JwtSnapshot(events[..i]), ls) ::
                decisions[i] ==
                if events[i].token in events[i].verified &&
                   var c := events[i].verified[events[i].token];
                   && c.iss == ISSUER && c.sub != []
                   && (checks ==> (forall l | l in ls :: !LineNames(l, c.sub)))
                   && (checks && c.jti != [] ==> (forall l | l in ls :: !LineNames(l, c.jti)))
                then Some(events[i].verified[events[i].token].sub)
                else None
    {
      decisions := Loop(events);
      hide *;
      forall i, ls | 0 <= i < |events| && events[i].Present? && Pieces(JwtSnapshot(events[..i]), ls)
        ensures decisions[i] ==
                if events[i].token in events[i].verified &&
                   var c := events[i].verified[events[i].token];
                   && c.iss == ISSUER && c.sub != []
                   && (checks ==> (forall l | l in ls :: !LineNames(l, c.sub)))
                   && (checks && c.jti != [] ==> (forall l | l in ls :: !LineNames(l, c.jti)))
                then Some(events[i].verified[events[i].token].sub)
                else None
      {
        DecisionExactly(events[..i], checks, events[i], ls);
      }
    }

    method Loop(events: seq<JwtEvent>) returns (decisions: seq<Option<Text>>)
      requires revoked == {}
      modifies this
      ensures |decisions| == |events|
      ensures forall i | 0 <= i < |events| :: decisions[i] == DecisionAfter(events[..i], checks, events[i])
    {
      NothingListedAtFirst();
      assert Agrees([]);
      hide *;
      decisions := [];
      var i := 0;
      while i < |events|
        invariant 0 <= i <= |events| && |decisions| == i && Agrees(events[..i])
        invariant forall k | 0 <= k < i :: decisions[k] == DecisionAfter(events[..k], checks, events[k])
      {
        assert events[..i + 1] == events[..i] + [events[i]];
        var d := Do(events[i], events[..i]);
        decisions := decisions + [d];
        i := i + 1;
      }
    }
  }

  lemma NothingListedAtFirst()
    ensures forall x :: !ListedIn(JwtSnapshot([]), x)
  {
  }

  /** The answer to a request that comes after the events before it; none for a reload. */
  function DecisionAfter(before: seq<JwtEvent>, checks: bool, e: JwtEvent): Option<Text> {
    if e.Present? then JwtDecision(JwtSnapshot(before), checks, e) else None
  }

  /** A token is accepted, as its subject, exactly when it verifies with this issuer and a subject
      and, if revocations are checked, no line of the snapshot names the subject or a non-empty id. */
  lemma DecisionExactly(before: seq<JwtEvent>, checks: bool, e: JwtEvent, ls: seq<Text>)
    requires e.Present? && Pieces(JwtSnapshot(before), ls)
    ensures DecisionAfter(before, checks, e) ==
            if e.token in e.verified &&
               var c := e.verified[e.token];
               && c.iss == ISSUER && c.sub != []
               && (checks ==> (forall l | l in ls :: !LineNames(l, c.sub)))
               && (checks && c.jti != [] ==> (forall l | l in ls :: !LineNames(l, c.jti)))
            then Some(e.verified[e.token].sub)
            else None
  {
    hide JwtSnapshot, ListedIn, LineNames, Pieces;
    if e.token in e.verified {
      var c := e.verified[e.token];
      FileIsItsLines(JwtSnapshot(before), ls, c.sub);
      FileIsItsLines(JwtSnapshot(before), ls, c.jti);
    }
  }

  function JwtDecision(content: Text, checks: bool, e: JwtEvent): Option<Text>
    requires e.Present?
  {
    if e.token in e.verified && AcceptsUnder(content, checks, e.verified[e.token])
    then Some(e.verified[e.token].sub)
    else None
  }

  // -------------------------------------------------------------------- the chain

  /** The first success wins. */
  function Authenticate(chain: seq<Member>, token: Text): Option<Text> {
    if chain == [] then None
    else if Decide(chain[0], token).Some? then Decide(chain[0], token)
    else Authenticate(chain[1..], token)
  }

  /** The identity is that of the first member that accepts. */
  lemma {:induction false} FirstAcceptorWins(chain: seq<Member>, token: Text, id: Text)
    ensures Authenticate(chain, token) == Some(id) <==>
            exists i | 0 <= i < |chain| ::
              Decide(chain[i], token) == Some(id) && forall j | 0 <= j < i :: Decide(chain[j], token) == None
  {
    if chain != [] {
      FirstAcceptorWins(chain[1..], token, id);
      if Decide(chain[0], token) == None {
        forall i | 0 <= i < |chain| - 1 && Decide(chain[1..][i], token) == Some(id)
                   && forall j | 0 <= j < i :: Decide(chain[1..][j], token) == None
          ensures Decide(chain[i + 1], token) == Some(id)
          ensures forall j | 0 <= j < i + 1 :: Decide(chain[j], token) == None
        {
          forall j | 0 <= j < i + 1 ensures Decide(chain[j], token) == None {
            if j > 0 { assert chain[j] == chain[1..][j - 1]; }
          }
        }
        forall i | 0 <= i < |chain| && Decide(chain[i], token) == Some(id)
                   && forall j | 0 <= j < i :: Decide(chain[j], token) == None
          ensures i > 0 && Decide(chain[1..][i - 1], token) == Some(id)
          ensures forall j | 0 <= j < i - 1 :: Decide(chain[1..][j], token) == None
        {
        }
      }
    }
  }

  lemma {:induction false} AcceptedByAMember(chain: seq<Member>, token: Text)
    ensures Authenticate(chain, token).Some? <==> exists m | m in chain :: Decide(m, token).Some?
  {
    if chain != [] {
      AcceptedByAMember(chain[1..], token);
      assert forall m :: m in chain <==> m == chain[0] || m in chain[1..];
    }
  }

  /** Whether a token is accepted does not depend on the order of the members. */
  lemma OrderDoesNotMatter(chain: seq<Member>, other: seq<Member>, token: Text)
    requires multiset(chain) == multiset(other)
    ensures Authenticate(chain, token).Some? == Authenticate(other, token).Some?
  {
    AcceptedByAMember(chain, token);
    AcceptedByAMember(other, token);
    assert forall m :: m in chain <==> m in multiset(chain);
    assert forall m :: m in other <==> m in multiset(other);
  }

  /** Members added at the end are asked only about tokens that were refused so far. */
  lemma {:induction false} AppendingKeepsIdentities(chain: seq<Member>, more: seq<Member>, token: Text)
    ensures Authenticate(chain + more, token) ==
            if Authenticate(chain, token).Some? then Authenticate(chain, token) else Authenticate(more, token)
  {
    if chain == [] {
      assert chain + more == more;
    } else {
      assert (chain + more)[1..] == chain[1..] + more;
      AppendingKeepsIdentities(chain[1..], more, token);
    }
  }
}
