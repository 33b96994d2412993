/** The credential file and token lookup: server/auth.go. */
module Auth {
  import opened Outcomes
  import opened Text
  import opened Records
  import opened Patterns
  import opened Allows

  datatype Role = Reader | Writer | Admin | Operator

  /** `unicode.ToLower` as far as it leads to an ASCII letter. */
  function LowerChar(c: char): char {
    if 'A' <= c <= 'Z' then c - 'A' + 'a'
    else if c == '\U{130}' then 'i'
    else if c == '\U{212A}' then 'k'
    else c
  }

  function Lower(s: string): string {
    seq(|s|, i requires 0 <= i < |s| => LowerChar(s[i]))
  }

  function ParseRole(raw: string): Option<Role> {
    var name := Lower(Trim(raw));
    if name == "reader" then Some(Reader)
    else if name == "writer" then Some(Writer)
    else if name == "admin" then Some(Admin)
    else if name == "operator" then Some(Operator)
    else None
  }

  function RoleString(role: Role): string {
    match role
    case Reader => "reader"
    case Writer => "writer"
    case Admin => "admin"
    case Operator => "operator"
  }

  predicate CredentialChar(c: char) {
    IsAlnum(c) || c in "._:@-"
  }

  predicate ValidCredentialID(id: string) {
    1 <= |id| <= 128 && forall i | 0 <= i < |id| :: CredentialChar(id[i])
  }

  /** A SHA-256 digest as its 64 half-bytes. */
  type Digest = d: seq<int> | |d| == 64 && forall i | 0 <= i < 64 :: 0 <= d[i] < 16 witness seq(64, _ => 0)

  function HexValue(c: char): int
    requires IsHexDigit(c)
  {
    if '0' <= c <= '9' then (c - '0') as int
    else if 'a' <= c <= 'f' then (c - 'a') as int + 10
    else (c - 'A') as int + 10
  }

  function HexChar(v: int): char
    requires 0 <= v < 16
  {
    if v < 10 then '0' + v as char else 'a' + (v - 10) as char
  }

  /** `hex.DecodeString`, for a digest of the right length. */
  function DecodeDigest(s: string): Option<Digest> {
    if |s| == 64 && forall i | 0 <= i < 64 :: IsHexDigit(s[i])
    then Some(seq(64, i requires 0 <= i < 64 => HexValue(s[i]))) else None
  }

  /** `hex.EncodeToString`. */
  function EncodeDigest(d: Digest): string {
    seq(64, i requires 0 <= i < 64 => HexChar(d[i]))
  }

  /** `strings.EqualFold` on hexadecimal text. */
  predicate EqualFold(a: string, b: string) {
    Lower(a) == Lower(b)
  }

  lemma HexCharsFold(c: char, v: int)
    requires IsHexDigit(c) && 0 <= v < 16
    ensures LowerChar(c) == LowerChar(HexChar(v)) <==> HexValue(c) == v
    ensures IsHexDigit(HexChar(v)) && HexValue(HexChar(v)) == v
  {
  }

  /** Comparing hexadecimal texts without case is comparing the digests they encode. */
  lemma FoldComparesDigests(s: string, d: Digest)
    requires DecodeDigest(s).Some?
    ensures EqualFold(s, EncodeDigest(d)) <==> DecodeDigest(s) == Some(d)
  {
    var decoded := DecodeDigest(s).value;
    forall i | 0 <= i < 64 ensures Lower(s)[i] == Lower(EncodeDigest(d))[i] <==> decoded[i] == d[i] {
      HexCharsFold(s[i], d[i]);
    }
    hide LowerChar, HexValue, HexChar;
    if decoded == d {
      assert Lower(s) == Lower(EncodeDigest(d));
    }
    if EqualFold(s, EncodeDigest(d)) {
      assert decoded == d;
    }
  }

  lemma DecodingEncoded(d: Digest)
    ensures DecodeDigest(EncodeDigest(d)) == Some(d)
  {
    var text := EncodeDigest(d);
    forall i | 0 <= i < 64 ensures IsHexDigit(text[i]) && HexValue(text[i]) == d[i] {
      HexCharsFold('0', d[i]);
    }
    hide HexValue, HexChar, IsHexDigit;
    assert DecodeDigest(text).value == d;
  }

  /** The four role names, in any case and with white space around them. */
  lemma RoleNames(raw: string)
    ensures ParseRole(raw) == Some(Reader) <==> Lower(Trim(raw)) == "reader"
    ensures ParseRole(raw) == Some(Writer) <==> Lower(Trim(raw)) == "writer"
    ensures ParseRole(raw) == Some(Admin) <==> Lower(Trim(raw)) == "admin"
    ensures ParseRole(raw) == Some(Operator) <==> Lower(Trim(raw)) == "operator"
  {
    hide Trim, Lower;
    assert "reader"[0] == 'r' && "writer"[0] == 'w' && "admin"[0] == 'a' && "operator"[0] == 'o';
  }

  lemma RoleRoundTrip(role: Role)
    ensures ParseRole(RoleString(role)) == Some(role)
  {
    var s := RoleString(role);
    assert !IsSpace(s[0]) && !IsSpace(s[|s| - 1]);
    TrimKeepsTrimmed(s);
    assert Lower(s) == s;
  }

  datatype Record = Record(id: string, role: string, sha256: string, notAfter: Option<Time>, allow: Option<Allow>)

  datatype Credential = Credential(id: string, role: Role, allow: Option<Allow>, digest: Digest, notAfter: Option<Time>)

  predicate Active(notAfter: Option<Time>, now: Time) {
    notAfter.Some? ==> now < notAfter.value
  }

  predicate ValidRecord(record: Record) {
    && ValidCredentialID(Trim(record.id))
    && ParseRole(record.role).Some?
    && ValidAllow(record.allow)
    && DecodeDigest(Trim(record.sha256)).Some?
  }

  function DigestOf(record: Record): Digest
    requires ValidRecord(record)
  {
    DecodeDigest(Trim(record.sha256)).value
  }

  function CredentialOf(record: Record): Credential
    requires ValidRecord(record)
  {
    Credential(Trim(record.id), ParseRole(record.role).value,
               if record.allow.None? then None else Some(TrimAllow(record.allow.value)),
               DigestOf(record), record.notAfter)
  }

  /** At least one record, all valid, with different IDs and different digests. */
  predicate Loadable(tokens: seq<Record>) {
    && tokens != []
    && Consistent(tokens)
  }

  predicate AllValid(tokens: seq<Record>) {
    forall i | 0 <= i < |tokens| :: ValidRecord(tokens[i])
  }

  predicate Consistent(tokens: seq<Record>) {
    && AllValid(tokens)
    && (forall i, j | 0 <= i < j < |tokens| ::
          Trim(tokens[i].id) != Trim(tokens[j].id) && DigestOf(tokens[i]) != DigestOf(tokens[j]))
  }

  /** What the file grants: the credential of each digest. */
  function Grants(tokens: seq<Record>): map<Digest, Credential>
    requires AllValid(tokens)
  {
    if tokens == [] then map[]
    else
      var last := tokens[|tokens| - 1];
      Grants(tokens[..|tokens| - 1])[DigestOf(last) := CredentialOf(last)]
  }

  /** `omitempty` drops a list that is present but empty. */
  function NonEmpty(names: Option<seq<string>>): Option<seq<string>> {
    if names == Some([]) then None else names
  }

  function WrittenAllow(allow: Allow): Allow {
    Allow(allow.types, NonEmpty(allow.commands), NonEmpty(allow.refs))
  }

  /** A record as it reads back after the file is written again. */
  function Written(record: Record): Record {
    match record.allow
    case None => record
    case Some(allow) => record.(allow := Some(WrittenAllow(allow)))
  }

  function WrittenAll(tokens: seq<Record>): (written: seq<Record>)
    ensures |written| == |tokens|
  {
    seq(|tokens|, i requires 0 <= i < |tokens| => Written(tokens[i]))
  }

  predicate NoEmptyLists(record: Record) {
    record.allow.Some? ==> record.allow.value.commands != Some([]) && record.allow.value.refs != Some([])
  }

  predicate NoEmptyListsIn(tokens: seq<Record>) {
    forall i | 0 <= i < |tokens| :: NoEmptyLists(tokens[i])
  }

  /** Writing a record again keeps it valid, with its ID and digest, and keeps its rights exactly when none of its
      lists is present but empty. */
  lemma WritingKeepsRightsExactly(record: Record)
    requires ValidRecord(record)
    ensures ValidRecord(Written(record)) && DigestOf(Written(record)) == DigestOf(record)
    ensures Written(record).id == record.id
    ensures CredentialOf(Written(record)) == CredentialOf(record) <==> NoEmptyLists(record)
    ensures Written(record) == record <==> NoEmptyLists(record)
    ensures NoEmptyLists(Written(record))
  {
    hide ValidTypes, ValidCommands, ValidRefs, Trim, DecodeDigest, ParseRole;
  }

  /** A credential whose command list is present but empty may append nothing; once the file is written again it may
      append every command of its types. */
  lemma DroppedListWidensRights(record: Record, kind: string, command: string)
    requires ValidRecord(record) && record.allow.Some? && record.allow.value.commands == Some([])
    ensures !AllowsAppend(CredentialOf(record).allow, kind, command)
    ensures AllowsAppend(CredentialOf(Written(record)).allow, kind, command) <==>
              exists i :: 0 <= i < |record.allow.value.types| && TypeAllowed(Trim(record.allow.value.types[i]), kind)
  {
    WritingKeepsRightsExactly(record);
    hide TypeAllowed, Trim, ValidRecord, DigestOf, ParseRole;
    var types := record.allow.value.types;
    var allow := CredentialOf(Written(record)).allow.value;
    assert allow.types == TrimAll(types) && allow.commands.None?;
    assert CredentialOf(record).allow.value.commands == Some([]);
    hide CredentialOf, Written;
    if i :| 0 <= i < |types| && TypeAllowed(Trim(types[i]), kind) {
      assert TypeAllowed(allow.types[i], kind);
    }
    if AllowsAppend(CredentialOf(Written(record)).allow, kind, command) {
      var i :| 0 <= i < |allow.types| && TypeAllowed(allow.types[i], kind);
      assert TypeAllowed(Trim(types[i]), kind);
    }
  }

  predicate KnownID(tokens: seq<Record>, id: string) {
    exists i :: 0 <= i < |tokens| && Trim(tokens[i].id) == id
  }

  predicate KnownDigest(tokens: seq<Record>, digest: Digest)
    requires AllValid(tokens)
  {
    exists i :: 0 <= i < |tokens| && DigestOf(tokens[i]) == digest
  }

  /** The arguments of `AddToken`; `digest` is the SHA-256 digest of a token of `tokenLength` bytes. */
  datatype Addition = Addition(
    id: string, role: string, tokenLength: nat, digest: Digest, notAfter: Option<Time>, allow: Option<Allow>)

  /** When `AddToken` goes on to write the file. */
  predicate Addable(tokens: seq<Record>, addition: Addition, now: Time) {
    && Loadable(tokens)
    && ValidCredentialID(Trim(addition.id)) && ParseRole(addition.role).Some?
    && 32 <= addition.tokenLength <= 512
    && Active(addition.notAfter, now)
    && ValidAllow(addition.allow)
    && !KnownID(tokens, Trim(addition.id)) && !KnownDigest(tokens, addition.digest)
  }

  function NewRecord(addition: Addition): Record
    requires ParseRole(addition.role).Some?
  {
    Record(Trim(addition.id), RoleString(ParseRole(addition.role).value), EncodeDigest(addition.digest),
           addition.notAfter,
           if addition.allow.None? then None else Some(TrimAllow(addition.allow.value)))
  }

  function Without(tokens: seq<Record>, id: string): seq<Record> {
    if tokens == [] then []
    else
      var last := |tokens| - 1;
      Without(tokens[..last], id) + if Trim(tokens[last].id) == id then [] else [tokens[last]]
  }

  predicate SomeActive(tokens: seq<Record>, now: Time) {
    exists i :: 0 <= i < |tokens| && Active(tokens[i].notAfter, now)
  }

  /** When `RevokeToken` goes on to write the file. */
  predicate Revocable(tokens: seq<Record>, id: string, now: Time) {
    Loadable(tokens) && KnownID(tokens, Trim(id)) && SomeActive(Without(tokens, Trim(id)), now)
  }

  function Replaced(tokens: seq<Record>, next: seq<Record>, fault: WriteFault): seq<Record> {
    if fault.NotReplaced? then tokens else WrittenAll(next)
  }

  class CredentialFile {
    var tokens: seq<Record>

    constructor (tokens: seq<Record>)
      ensures this.tokens == tokens
    {
      this.tokens := tokens;
    }

    /** `LoadAuthenticator`. */
    method LoadAuthenticator() returns (r: Result<seq<Credential>>)
      ensures r.Ok? <==> Loadable(tokens)
      ensures r.Ok? ==> |r.value| == |tokens| && forall i | 0 <= i < |tokens| :: r.value[i] == CredentialOf(tokens[i])
    {
      hide Trim, ValidCredentialID, ParseRole, ValidAllow, DecodeDigest, TrimAllow;
      if |tokens| == 0 {
        return Err(Validation);
      }
      var seen: set<string> := {};
      var seenDigests: set<Digest> := {};
      var credentials: seq<Credential> := [];
      for i := 0 to |tokens|
        invariant |credentials| == i
        invariant forall k | 0 <= k < i :: ValidRecord(tokens[k]) && credentials[k] == CredentialOf(tokens[k])
        invariant forall id :: id in seen <==> exists k :: 0 <= k < i && Trim(tokens[k].id) == id
        invariant forall d :: d in seenDigests <==> exists k :: 0 <= k < i && credentials[k].digest == d
        invariant forall j, k | 0 <= j < k < i ::
                    Trim(tokens[j].id) != Trim(tokens[k].id) && credentials[j].digest != credentials[k].digest
      {
        var record := tokens[i];
        var id := Trim(record.id);
        if !ValidCredentialID(id) || id in seen {
          return Err(Validation);
        }
        seen := seen + {id};
        var role := ParseRole(record.role);
        if role.None? || !ValidAllow(record.allow) {
          return Err(Validation);
        }
        var digest := DecodeDigest(Trim(record.sha256));
        if digest.None? {
          return Err(Validation);
        }
        if digest.value in seenDigests {
          var k :| 0 <= k < i && credentials[k].digest == digest.value;
          assert ValidRecord(record) && DigestOf(tokens[k]) == DigestOf(tokens[i]);
          return Err(Validation);
        }
        seenDigests := seenDigests + {digest.value};
        var allow := if record.allow.None? then None else Some(TrimAllow(record.allow.value));
        credentials := credentials + [Credential(id, role.value, allow, digest.value, record.notAfter)];
      }
      return Ok(credentials);
    }

    method AddToken(addition: Addition, now: Time, fault: WriteFault) returns (r: Result<()>)
      modifies this
      ensures r.Ok? <==> Addable(old(tokens), addition, now) && fault.Written?
      ensures tokens == if Addable(old(tokens), addition, now)
                        then Replaced(old(tokens), old(tokens) + [NewRecord(addition)], fault) else old(tokens)
    {
      hide Trim, ValidCredentialID, ParseRole, ValidAllow, DecodeDigest, TrimAllow, EqualFold, EncodeDigest, WrittenAll;
      var loaded := LoadAuthenticator();
      if loaded.Err? {
        return Err(loaded.error);
      }
      var records := tokens;
      assert Consistent(records);
      var id := Trim(addition.id);
      if !ValidCredentialID(id) || ParseRole(addition.role).None? {
        return Err(Validation);
      }
      if addition.tokenLength < 32 || addition.tokenLength > 512 {
        return Err(Validation);
      }
      if addition.notAfter.Some? && addition.notAfter.value <= now {
        return Err(Validation);
      }
      if !ValidAllow(addition.allow) {
        return Err(Validation);
      }
      for i := 0 to |records|
        invariant forall k | 0 <= k < i :: Trim(records[k].id) != id
      {
        if Trim(records[i].id) == id {
          return Err(Conflict);
        }
      }
      var digest := EncodeDigest(addition.digest);
      for i := 0 to |records|
        invariant tokens == records
        invariant forall k | 0 <= k < i :: DigestOf(records[k]) != addition.digest
      {
        assert ValidRecord(records[i]);
        FoldComparesDigests(Trim(records[i].sha256), addition.digest);
        if EqualFold(Trim(records[i].sha256), digest) {
          assert KnownDigest(records, addition.digest);
          return Err(Conflict);
        }
      }
      if fault.NotReplaced? {
        return Err(SystemError);
      }
      tokens := WrittenAll(records + [NewRecord(addition)]);
      if fault.NotSynced? {
        return Err(SystemError);
      }
      return Ok(());
    }

    method RevokeToken(id: string, now: Time, fault: WriteFault) returns (r: Result<()>)
      modifies this
      ensures r.Ok? <==> Revocable(old(tokens), id, now) && fault.Written?
      ensures tokens == if Revocable(old(tokens), id, now)
                        then Replaced(old(tokens), Without(old(tokens), Trim(id)), fault) else old(tokens)
    {
      hide Trim, Loadable, WrittenAll, Without;
      var loaded := LoadAuthenticator();
      if loaded.Err? {
        return Err(loaded.error);
      }
      var records := tokens;
      var trimmed := Trim(id);
      var filtered: seq<Record> := [];
      var found := false;
      assert Without([], trimmed) == [] by {
        WithoutNothing(trimmed);
      }
      assert records[..|records|] == records;
      for i := 0 to |records|
        invariant tokens == records
        invariant filtered == Without(records[..i], trimmed)
        invariant found <==> exists k :: 0 <= k < i && Trim(records[k].id) == trimmed
      {
        assert records[..i + 1] == records[..i] + [records[i]];
        WithoutMore(records[..i], records[i], trimmed);
        if Trim(records[i].id) == trimmed {
          found := true;
        } else {
          filtered := filtered + [records[i]];
        }
      }
      if !found {
        return Err(NotFound);
      }
      var active := false;
      for i := 0 to |filtered|
        invariant !active && forall k | 0 <= k < i :: !Active(filtered[k].notAfter, now)
      {
        if filtered[i].notAfter.None? || now < filtered[i].notAfter.value {
          active := true;
          break;
        }
      }
      if !active {
        return Err(Conflict);
      }
      if fault.NotReplaced? {
        return Err(SystemError);
      }
      tokens := WrittenAll(filtered);
      if fault.NotSynced? {
        return Err(SystemError);
      }
      return Ok(());
    }
  }

  /** What a token of `length` bytes with `digest` gets from a map of grants. */
  function Granted(grants: map<Digest, Credential>, length: nat, digest: Digest, now: Time): Option<Credential> {
    if 32 <= length <= 512 && digest in grants && Active(grants[digest].notAfter, now)
    then Some(grants[digest]) else None
  }

  /** Record `i` has the digest, and no expiry or one that lies after `now`. */
  predicate Unexpired(tokens: seq<Record>, i: nat, digest: Digest, now: Time)
    requires i < |tokens| && AllValid(tokens)
  {
    DigestOf(tokens[i]) == digest && (tokens[i].notAfter.None? || now < tokens[i].notAfter.value)
  }

  /** A token is granted exactly when it has 32 to 512 bytes and some record has its digest and is not expired; it gets
      that record's credential. */
  lemma GrantedExactly(tokens: seq<Record>, length: nat, digest: Digest, now: Time)
    requires Consistent(tokens)
    ensures var granted := Granted(Grants(tokens), length, digest, now);
            && (granted.Some? <==>
                  32 <= length <= 512 && exists i :: 0 <= i < |tokens| && Unexpired(tokens, i, digest, now))
            && (granted.Some? ==>
                  exists i :: 0 <= i < |tokens| && Unexpired(tokens, i, digest, now) &&
                              granted.value == CredentialOf(tokens[i]))
  {
    hide ValidRecord, CredentialOf, Trim, DigestOf, Grants, Unexpired, Active;
    GrantsKnows(tokens, digest);
    forall i | 0 <= i < |tokens| && DigestOf(tokens[i]) == digest
      ensures Unexpired(tokens, i, digest, now) <==> Active(Grants(tokens)[digest].notAfter, now)
    {
      UnexpiredIsActive(tokens, i, digest, now);
    }
    forall i | 0 <= i < |tokens| ensures Unexpired(tokens, i, digest, now) ==> DigestOf(tokens[i]) == digest {
      UnexpiredIsActive(tokens, i, digest, now);
    }
    if digest in Grants(tokens) {
      var i :| 0 <= i < |tokens| && DigestOf(tokens[i]) == digest;
      assert Grants(tokens)[digest] == CredentialOf(tokens[i]);
    }
  }

  lemma UnexpiredIsActive(tokens: seq<Record>, i: nat, digest: Digest, now: Time)
    requires AllValid(tokens) && i < |tokens|
    ensures Unexpired(tokens, i, digest, now) <==>
              DigestOf(tokens[i]) == digest && Active(CredentialOf(tokens[i]).notAfter, now)
  {
    hide DigestOf, Trim;
    CredentialHasDigest(tokens[i]);
  }

  /** What a credential says: the record's trimmed ID, its named role, its trimmed capability block and its expiry. */
  lemma CredentialSays(record: Record)
    requires ValidRecord(record)
    ensures var credential := CredentialOf(record);
            && credential.id == Trim(record.id)
            && Some(credential.role) == ParseRole(record.role)
            && credential.allow == (if record.allow.None? then None else Some(TrimAllow(record.allow.value)))
            && Some(credential.digest) == DecodeDigest(Trim(record.sha256))
            && credential.notAfter == record.notAfter
  {
    hide Trim, TrimAllow;
  }

  /** `Authenticate`: the loop looks at every credential, and answers the grant of the token's digest. */
  method Authenticate(tokens: seq<Record>, credentials: seq<Credential>, length: nat, digest: Digest, now: Time)
    returns (r: Option<Credential>)
    requires Consistent(tokens) && |credentials| == |tokens|
    requires forall i | 0 <= i < |tokens| :: credentials[i] == CredentialOf(tokens[i])
    ensures r == Granted(Grants(tokens), length, digest, now)
  {
    hide ValidRecord, CredentialOf, Trim, DigestOf;
    if length < 32 || length > 512 {
      return None;
    }
    var matched: Option<Credential> := None;
    assert tokens[..|tokens|] == tokens;
    assert Grants([]) == map[];
    hide Grants;
    for i := 0 to |credentials|
      invariant matched == Granted(Grants(tokens[..i]), length, digest, now)
      invariant digest in Grants(tokens[..i]) <==> exists k :: 0 <= k < i && DigestOf(tokens[k]) == digest
    {
      GrantsOfNext(tokens, i);
      var candidate := credentials[i];
      if candidate.digest == digest && Active(candidate.notAfter, now) {
        matched := Some(candidate);
      }
    }
    return matched;
  }

  lemma GrantsOfNext(tokens: seq<Record>, i: nat)
    requires i < |tokens| && AllValid(tokens)
    ensures AllValid(tokens[..i]) && AllValid(tokens[..i + 1])
    ensures Grants(tokens[..i + 1]) == Grants(tokens[..i])[DigestOf(tokens[i]) := CredentialOf(tokens[i])]
    ensures CredentialOf(tokens[i]).digest == DigestOf(tokens[i])
  {
    hide CredentialOf, DigestOf, ValidRecord;
    CredentialHasDigest(tokens[i]);
    assert tokens[..i + 1][..i] == tokens[..i];
  }

  lemma CredentialHasDigest(record: Record)
    requires ValidRecord(record)
    ensures CredentialOf(record).digest == DigestOf(record) && CredentialOf(record).id == Trim(record.id)
    ensures CredentialOf(record).notAfter == record.notAfter
  {
  }

  lemma {:induction false} GrantsKnows(tokens: seq<Record>, digest: Digest)
    requires Consistent(tokens)
    ensures digest in Grants(tokens) <==> KnownDigest(tokens, digest)
    ensures forall i | 0 <= i < |tokens| ::
              DigestOf(tokens[i]) in Grants(tokens) && Grants(tokens)[DigestOf(tokens[i])] == CredentialOf(tokens[i])
  {
    hide ValidRecord, CredentialOf, Trim, DigestOf;
    if tokens != [] {
      var last := |tokens| - 1;
      var before := tokens[..last];
      GrantsKnows(before, digest);
      forall i | 0 <= i < last ensures DigestOf(tokens[i]) in Grants(before) {
        GrantsKnows(before, DigestOf(before[i]));
      }
    }
  }

  /** Whoever authenticates has a valid ID, an `allow` block that is absent or valid, and has not expired. */
  lemma {:induction false} GrantedIsValid(tokens: seq<Record>, length: nat, digest: Digest, now: Time)
    requires Consistent(tokens) && Granted(Grants(tokens), length, digest, now).Some?
    ensures var credential := Granted(Grants(tokens), length, digest, now).value;
            && ValidCredentialID(credential.id) && Active(credential.notAfter, now)
            && (credential.allow.Some? ==> ValidTrimmed(credential.allow.value))
            && exists i :: 0 <= i < |tokens| && DigestOf(tokens[i]) == digest && CredentialOf(tokens[i]) == credential
  {
    GrantsKnows(tokens, digest);
    hide Trim, ValidCredentialID, ValidTrimmed, DecodeDigest, ParseRole, Grants, TrimAllow;
    var i :| 0 <= i < |tokens| && DigestOf(tokens[i]) == digest;
    assert ValidRecord(tokens[i]);
    assert CredentialOf(tokens[i]) == Grants(tokens)[digest];
  }

  lemma WritingKeepsValid(tokens: seq<Record>)
    requires AllValid(tokens)
    ensures AllValid(WrittenAll(tokens))
    ensures forall i | 0 <= i < |tokens| ::
              && Trim(WrittenAll(tokens)[i].id) == Trim(tokens[i].id)
              && DigestOf(WrittenAll(tokens)[i]) == DigestOf(tokens[i])
  {
    hide ValidRecord, Trim, DigestOf, Written;
    forall i | 0 <= i < |tokens|
      ensures ValidRecord(Written(tokens[i])) && DigestOf(Written(tokens[i])) == DigestOf(tokens[i])
      ensures Written(tokens[i]).id == tokens[i].id
    {
      WritingKeepsRightsExactly(tokens[i]);
    }
  }

  /** Writing the file again keeps it consistent, and drops the lists that are present but empty and nothing else. */
  lemma WritingKeepsConsistent(tokens: seq<Record>)
    requires Consistent(tokens)
    ensures Consistent(WrittenAll(tokens)) && NoEmptyListsIn(WrittenAll(tokens))
    ensures WrittenAll(tokens) == tokens <==> NoEmptyListsIn(tokens)
  {
    WritingKeepsValid(tokens);
    WritingDropsEmptyLists(tokens);
    hide ValidRecord, Trim, DigestOf, WrittenAll, NoEmptyListsIn, AllValid;
  }

  lemma WritingDropsEmptyLists(tokens: seq<Record>)
    requires AllValid(tokens)
    ensures NoEmptyListsIn(WrittenAll(tokens))
    ensures WrittenAll(tokens) == tokens <==> NoEmptyListsIn(tokens)
  {
    forall i | 0 <= i < |tokens|
      ensures NoEmptyLists(Written(tokens[i])) && (Written(tokens[i]) == tokens[i] <==> NoEmptyLists(tokens[i]))
    {
      WritingKeepsRightsExactly(tokens[i]);
    }
    hide ValidRecord, Written, NoEmptyLists;
    if NoEmptyListsIn(tokens) {
      assert WrittenAll(tokens) == tokens;
    }
  }

  /** Writing the file again changes what it grants exactly when some list is present but empty. */
  lemma WritingKeepsGrantsExactly(tokens: seq<Record>)
    requires Consistent(tokens)
    ensures AllValid(WrittenAll(tokens))
    ensures Grants(WrittenAll(tokens)) == Grants(tokens) <==> NoEmptyListsIn(tokens)
  {
    WritingKeepsConsistent(tokens);
    hide ValidRecord, CredentialOf, DigestOf, Grants, Written, NoEmptyLists;
    if Grants(WrittenAll(tokens)) == Grants(tokens) {
      WritingKeepsValid(tokens);
      forall i | 0 <= i < |tokens| ensures NoEmptyLists(tokens[i]) {
        GrantsKnows(tokens, DigestOf(tokens[i]));
        GrantsKnows(WrittenAll(tokens), DigestOf(tokens[i]));
        WritingKeepsRightsExactly(tokens[i]);
        assert WrittenAll(tokens)[i] == Written(tokens[i]);
      }
    }
  }

  lemma FrontIsConsistent(before: seq<Record>, last: Record)
    requires Consistent(before + [last])
    ensures Consistent(before) && AllValid(before) && ValidRecord(last)
    ensures !KnownID(before, Trim(last.id)) && !KnownDigest(before, DigestOf(last))
  {
    hide ValidRecord, Trim, DigestOf;
    var tokens := before + [last];
    assert tokens[|before|] == last;
    assert forall i | 0 <= i < |before| :: tokens[i] == before[i];
  }

  lemma MoreIsConsistent(tokens: seq<Record>, record: Record)
    requires Consistent(tokens) && ValidRecord(record)
    requires !KnownID(tokens, Trim(record.id)) && !KnownDigest(tokens, DigestOf(record))
    ensures Consistent(tokens + [record])
  {
    hide ValidRecord, Trim, DigestOf;
  }

  lemma MoreGrants(tokens: seq<Record>, record: Record)
    requires AllValid(tokens) && ValidRecord(record)
    ensures AllValid(tokens + [record])
    ensures Grants(tokens + [record]) == Grants(tokens)[DigestOf(record) := CredentialOf(record)]
  {
    hide ValidRecord, DigestOf, CredentialOf;
    assert (tokens + [record])[..|tokens|] == tokens;
  }

  lemma NewRecordIsValid(tokens: seq<Record>, addition: Addition, now: Time)
    requires Addable(tokens, addition, now)
    ensures ValidRecord(NewRecord(addition)) && DigestOf(NewRecord(addition)) == addition.digest
    ensures Trim(NewRecord(addition).id) == Trim(addition.id)
    ensures CredentialOf(NewRecord(addition)).allow ==
              if addition.allow.None? then None else Some(TrimAllow(addition.allow.value))
    ensures CredentialOf(NewRecord(addition)).role == ParseRole(addition.role).value
    ensures CredentialOf(NewRecord(addition)).id == Trim(addition.id)
    ensures CredentialOf(NewRecord(addition)).notAfter == addition.notAfter
  {
    TrimIsTrimmed(addition.id);
    RoleRoundTrip(ParseRole(addition.role).value);
    DecodingEncoded(addition.digest);
    EncodedIsTrimmed(addition.digest);
    if addition.allow.Some? {
      TrimAllowTwice(addition.allow.value);
    }
    hide Trim, ParseRole, DecodeDigest, EncodeDigest, TrimAllow, ValidTrimmed, ValidCredentialID, Loadable;
  }

  lemma EncodedIsTrimmed(d: Digest)
    ensures Trim(EncodeDigest(d)) == EncodeDigest(d)
  {
    assert IsHexDigit(EncodeDigest(d)[0]) && IsHexDigit(EncodeDigest(d)[63]);
    TrimKeepsTrimmed(EncodeDigest(d));
  }

  lemma TrimAllowTwice(allow: Allow)
    ensures TrimAllow(TrimAllow(allow)) == TrimAllow(allow)
  {
    TrimAllTwice(allow.types);
    if allow.commands.Some? {
      TrimAllTwice(allow.commands.value);
    }
    if allow.refs.Some? {
      TrimAllTwice(allow.refs.value);
    }
  }

  lemma WrittenMore(tokens: seq<Record>, record: Record)
    ensures WrittenAll(tokens + [record]) == WrittenAll(tokens) + [Written(record)]
  {
    hide Written;
  }

  lemma ConsistentIsValid(tokens: seq<Record>)
    requires Consistent(tokens)
    ensures AllValid(tokens)
  {
  }

  lemma WithoutNothing(id: string)
    ensures Without([], id) == []
  {
  }

  lemma WithoutMore(tokens: seq<Record>, record: Record, id: string)
    ensures Without(tokens + [record], id) ==
            if Trim(record.id) == id then Without(tokens, id) else Without(tokens, id) + [record]
  {
    hide Trim;
    assert (tokens + [record])[..|tokens|] == tokens;
  }

  lemma {:induction false} WithoutIsPart(tokens: seq<Record>, id: string)
    requires Consistent(tokens)
    ensures Consistent(Without(tokens, id))
    ensures forall record | record in Without(tokens, id) :: record in tokens && Trim(record.id) != id
  {
    hide Trim, Consistent;
    if tokens != [] {
      var before, record := tokens[..|tokens| - 1], tokens[|tokens| - 1];
      assert tokens == before + [record];
      hide Without;
      FrontIsConsistent(before, record);
      WithoutIsPart(before, id);
      WithoutMore(before, record, id);
      if Trim(record.id) != id {
        hide KnownID, KnownDigest, AllValid, ValidRecord, DigestOf;
        PartKnowsLess(Without(before, id), before, record);
        MoreIsConsistent(Without(before, id), record);
      }
    }
  }

  lemma PartKnowsLess(part: seq<Record>, whole: seq<Record>, record: Record)
    requires Consistent(part) && Consistent(whole) && ValidRecord(record)
    requires forall other | other in part :: other in whole
    requires !KnownID(whole, Trim(record.id)) && !KnownDigest(whole, DigestOf(record))
    ensures !KnownID(part, Trim(record.id)) && !KnownDigest(part, DigestOf(record))
  {
    hide ValidRecord, Trim, DigestOf;
    assert forall i | 0 <= i < |part| :: part[i] in whole;
  }

  function GrantsExcept(grants: map<Digest, Credential>, id: string): map<Digest, Credential> {
    map d | d in grants && grants[d].id != id :: grants[d]
  }

  lemma NewDigest(tokens: seq<Record>, digest: Digest)
    requires Consistent(tokens) && !KnownDigest(tokens, digest)
    ensures AllValid(tokens) && digest !in Grants(tokens)
  {
    hide ValidRecord, Trim, DigestOf, Grants, KnownDigest;
    GrantsKnows(tokens, digest);
  }

  lemma MoreExcept(grants: map<Digest, Credential>, digest: Digest, credential: Credential, id: string)
    requires digest !in grants
    ensures GrantsExcept(grants[digest := credential], id) ==
            if credential.id == id then GrantsExcept(grants, id) else GrantsExcept(grants, id)[digest := credential]
  {
  }

  lemma WithoutGrantsMore(before: seq<Record>, record: Record, id: string)
    requires Consistent(before + [record])
    requires AllValid(before) && AllValid(Without(before, id))
    requires Grants(Without(before, id)) == GrantsExcept(Grants(before), id)
    ensures AllValid(before + [record]) && AllValid(Without(before + [record], id))
    ensures Grants(Without(before + [record], id)) == GrantsExcept(Grants(before + [record]), id)
  {
    hide ValidRecord, CredentialOf, Trim, DigestOf, Consistent, KnownDigest, KnownID, AllValid, Grants, GrantsExcept,
      Without;
    FrontIsConsistent(before, record);
    WithoutMore(before, record, id);
    CredentialHasDigest(record);
    NewDigest(before, DigestOf(record));
    MoreGrants(before, record);
    MoreGrants(Without(before, id), record);
    MoreExcept(Grants(before), DigestOf(record), CredentialOf(record), id);
  }

  lemma {:induction false} WithoutGrants(tokens: seq<Record>, id: string)
    requires Consistent(tokens)
    ensures AllValid(tokens) && AllValid(Without(tokens, id))
    ensures Grants(Without(tokens, id)) == GrantsExcept(Grants(tokens), id)
  {
    hide ValidRecord, Trim, Consistent;
    if tokens == [] {
      assert Without(tokens, id) == [] && GrantsExcept(Grants(tokens), id) == map[];
    } else {
      hide Without, Grants, GrantsExcept, AllValid;
      var before, record := tokens[..|tokens| - 1], tokens[|tokens| - 1];
      assert tokens == before + [record];
      FrontIsConsistent(before, record);
      WithoutGrants(before, id);
      WithoutGrantsMore(before, record, id);
    }
  }

  lemma WritingKeepsActive(tokens: seq<Record>, now: Time)
    requires SomeActive(tokens, now)
    ensures SomeActive(WrittenAll(tokens), now)
  {
    var i :| 0 <= i < |tokens| && Active(tokens[i].notAfter, now);
    assert Active(WrittenAll(tokens)[i].notAfter, now);
  }

  datatype Edit =
    | Add(addition: Addition, now: Time, fault: WriteFault)
    | Revoke(id: string, now: Time, fault: WriteFault)

  function Edited(tokens: seq<Record>, edit: Edit): seq<Record> {
    match edit
    case Add(addition, now, fault) =>
      if Addable(tokens, addition, now) then Replaced(tokens, tokens + [NewRecord(addition)], fault) else tokens
    case Revoke(id, now, fault) =>
      if Revocable(tokens, id, now) then Replaced(tokens, Without(tokens, Trim(id)), fault) else tokens
  }

  function Run(tokens: seq<Record>, edits: seq<Edit>): seq<Record> {
    if edits == [] then tokens else Edited(Run(tokens, edits[..|edits| - 1]), edits[|edits| - 1])
  }

  /** A credential as it reads back after the file is written again. */
  function WrittenCredential(credential: Credential): Credential {
    match credential.allow
    case None => credential
    case Some(allow) => credential.(allow := Some(WrittenAllow(allow)))
  }

  function WrittenGrants(grants: map<Digest, Credential>): map<Digest, Credential> {
    map d | d in grants :: WrittenCredential(grants[d])
  }

  /** What an addition asks for. */
  function Requested(addition: Addition): Credential
    requires ParseRole(addition.role).Some?
  {
    Credential(Trim(addition.id), ParseRole(addition.role).value,
               if addition.allow.None? then None else Some(TrimAllow(addition.allow.value)),
               addition.digest, addition.notAfter)
  }

  predicate Named(grants: map<Digest, Credential>, id: string) {
    exists d :: d in grants && grants[d].id == id
  }

  predicate AnyActive(grants: map<Digest, Credential>, now: Time) {
    exists d :: d in grants && Active(grants[d].notAfter, now)
  }

  /** The checks of `AddToken` on its arguments alone. */
  predicate Proper(addition: Addition, now: Time) {
    && ValidCredentialID(Trim(addition.id)) && ParseRole(addition.role).Some?
    && 32 <= addition.tokenLength <= 512
    && Active(addition.notAfter, now)
    && ValidAllow(addition.allow)
  }

  /** An edit of the grants: it takes effect or not, and changes what it changes, by the grants alone. */
  function EditedGrants(grants: map<Digest, Credential>, edit: Edit): map<Digest, Credential> {
    match edit
    case Add(addition, now, fault) =>
      if !fault.NotReplaced? && Proper(addition, now) && !Named(grants, Trim(addition.id)) && addition.digest !in grants
      then WrittenGrants(grants[addition.digest := Requested(addition)]) else grants
    case Revoke(id, now, fault) =>
      var rest := GrantsExcept(grants, Trim(id));
      if !fault.NotReplaced? && Named(grants, Trim(id)) && AnyActive(rest, now)
      then WrittenGrants(rest) else grants
  }

  function RunGrants(grants: map<Digest, Credential>, edits: seq<Edit>): map<Digest, Credential> {
    if edits == [] then grants else EditedGrants(RunGrants(grants, edits[..|edits| - 1]), edits[|edits| - 1])
  }

  lemma WrittenReadsBack(record: Record)
    requires ValidRecord(record)
    ensures ValidRecord(Written(record)) && DigestOf(Written(record)) == DigestOf(record)
    ensures CredentialOf(Written(record)) == WrittenCredential(CredentialOf(record))
  {
    WritingKeepsRightsExactly(record);
    hide ValidTypes, ValidCommands, ValidRefs, Trim, DecodeDigest, ParseRole, ValidRecord;
  }

  lemma WritingRewritesOne(before: seq<Record>, record: Record)
    requires AllValid(before) && ValidRecord(record)
    requires AllValid(WrittenAll(before)) && Grants(WrittenAll(before)) == WrittenGrants(Grants(before))
    ensures AllValid(before + [record]) && AllValid(WrittenAll(before + [record]))
    ensures Grants(WrittenAll(before + [record])) == WrittenGrants(Grants(before + [record]))
  {
    hide ValidRecord, CredentialOf, DigestOf, Written, Grants, WrittenAll, AllValid, WrittenCredential;
    WrittenReadsBack(record);
    WrittenMore(before, record);
    MoreGrants(before, record);
    MoreGrants(WrittenAll(before), Written(record));
  }

  /** Writing the file again changes what it grants by dropping empty lists. */
  lemma {:induction false} WritingRewritesGrants(tokens: seq<Record>)
    requires AllValid(tokens)
    ensures AllValid(WrittenAll(tokens))
    ensures Grants(WrittenAll(tokens)) == WrittenGrants(Grants(tokens))
  {
    hide ValidRecord, CredentialOf, DigestOf, Written;
    WritingKeepsValid(tokens);
    if tokens == [] {
      assert WrittenAll(tokens) == [] && Grants(tokens) == map[];
    } else {
      var before, record := tokens[..|tokens| - 1], tokens[|tokens| - 1];
      assert tokens == before + [record];
      hide Grants, WrittenAll;
      WritingRewritesGrants(before);
      WritingRewritesOne(before, record);
    }
  }

  /** Adding a token keeps the file loadable and adds exactly the requested grant, with what writing again drops. */
  lemma AddingKeepsLoadable(tokens: seq<Record>, addition: Addition, now: Time)
    requires Addable(tokens, addition, now)
    ensures var next := WrittenAll(tokens + [NewRecord(addition)]);
            && Loadable(next) && NoEmptyListsIn(next)
            && AllValid(tokens) && AllValid(next)
            && Grants(next) == WrittenGrants(Grants(tokens)[addition.digest := Requested(addition)])
  {
    NewRecordIsValid(tokens, addition, now);
    var record := NewRecord(addition);
    CredentialHasDigest(record);
    assert CredentialOf(record) == Requested(addition);
    ConsistentIsValid(tokens);
    hide ValidRecord, Consistent, KnownID, KnownDigest, CredentialOf, Trim, DigestOf, NewRecord, Grants, WrittenGrants,
      ValidAllow, ParseRole, WrittenAll, ValidCredentialID, AllValid, Requested, NoEmptyListsIn;
    MoreIsConsistent(tokens, record);
    MoreGrants(tokens, record);
    WritingKeepsConsistent(tokens + [record]);
    WritingRewritesGrants(tokens + [record]);
  }

  /** Revoking keeps the file loadable, leaves an active credential, and takes away exactly the grants of that ID. */
  lemma RevokingKeepsLoadable(tokens: seq<Record>, id: string, now: Time)
    requires Revocable(tokens, id, now)
    ensures var next := WrittenAll(Without(tokens, Trim(id)));
            && Loadable(next) && SomeActive(next, now) && NoEmptyListsIn(next)
            && AllValid(tokens) && AllValid(next)
            && Grants(next) == WrittenGrants(GrantsExcept(Grants(tokens), Trim(id)))
  {
    hide ValidRecord, Consistent, Trim, NoEmptyListsIn, Grants, Without, WrittenAll, GrantsExcept, AllValid, KnownID,
      WrittenGrants;
    var rest := Without(tokens, Trim(id));
    ConsistentIsValid(tokens);
    WithoutIsPart(tokens, Trim(id));
    WithoutGrants(tokens, Trim(id));
    WritingKeepsConsistent(rest);
    WritingRewritesGrants(rest);
    WritingKeepsActive(rest, now);
  }

  /** The grants tell which IDs the file has. */
  lemma GrantsKnowIDs(tokens: seq<Record>, id: string)
    requires Consistent(tokens)
    ensures Named(Grants(tokens), id) <==> KnownID(tokens, id)
  {
    hide ValidRecord, CredentialOf, Trim, DigestOf, Grants;
    if d :| d in Grants(tokens) && Grants(tokens)[d].id == id {
      GrantsKnows(tokens, d);
      var i :| 0 <= i < |tokens| && DigestOf(tokens[i]) == d;
      CredentialHasDigest(tokens[i]);
    }
    if i :| 0 <= i < |tokens| && Trim(tokens[i].id) == id {
      GrantsKnows(tokens, DigestOf(tokens[i]));
      CredentialHasDigest(tokens[i]);
    }
  }

  /** The grants tell whether an active credential is there. */
  lemma GrantsKnowActive(tokens: seq<Record>, now: Time)
    requires Consistent(tokens)
    ensures SomeActive(tokens, now) <==> AnyActive(Grants(tokens), now)
  {
    hide ValidRecord, CredentialOf, Trim, DigestOf, Grants, Active;
    if d :| d in Grants(tokens) && Active(Grants(tokens)[d].notAfter, now) {
      GrantsKnows(tokens, d);
      var i :| 0 <= i < |tokens| && DigestOf(tokens[i]) == d;
      CredentialHasDigest(tokens[i]);
    }
    if i :| 0 <= i < |tokens| && Active(tokens[i].notAfter, now) {
      GrantsKnows(tokens, DigestOf(tokens[i]));
      CredentialHasDigest(tokens[i]);
    }
  }

  /** Which additions go on to write, in terms of the grants. */
  lemma AddableExactly(tokens: seq<Record>, addition: Addition, now: Time)
    requires Loadable(tokens)
    ensures AllValid(tokens)
    ensures Addable(tokens, addition, now) <==>
              Proper(addition, now) && !Named(Grants(tokens), Trim(addition.id)) && addition.digest !in Grants(tokens)
    ensures Proper(addition, now) <==>
              && ValidCredentialID(Trim(addition.id)) && ParseRole(addition.role).Some? && ValidAllow(addition.allow)
              && 32 <= addition.tokenLength <= 512
              && (addition.notAfter.None? || now < addition.notAfter.value)
  {
    GrantsKnowIDs(tokens, Trim(addition.id));
    GrantsKnows(tokens, addition.digest);
    hide ValidRecord, Trim, ValidAllow, ValidCredentialID, ParseRole, Grants, KnownID, KnownDigest, Named;
  }

  lemma AnyActiveExactly(grants: map<Digest, Credential>, now: Time)
    ensures AnyActive(grants, now) <==>
              exists d :: d in grants && (grants[d].notAfter.None? || now < grants[d].notAfter.value)
  {
  }

  /** Which revocations go on to write, in terms of the grants. */
  lemma RevocableExactly(tokens: seq<Record>, id: string, now: Time)
    requires Loadable(tokens)
    ensures AllValid(tokens)
    ensures var rest := GrantsExcept(Grants(tokens), Trim(id));
            Revocable(tokens, id, now) <==>
              && Named(Grants(tokens), Trim(id))
              && exists d :: d in rest && (rest[d].notAfter.None? || now < rest[d].notAfter.value)
    ensures Revocable(tokens, id, now) <==>
              Named(Grants(tokens), Trim(id)) && AnyActive(GrantsExcept(Grants(tokens), Trim(id)), now)
  {
    GrantsKnowIDs(tokens, Trim(id));
    WithoutIsPart(tokens, Trim(id));
    WithoutGrants(tokens, Trim(id));
    GrantsKnowActive(Without(tokens, Trim(id)), now);
    AnyActiveExactly(GrantsExcept(Grants(tokens), Trim(id)), now);
    hide ValidRecord, Trim, Grants, GrantsExcept, KnownID, Named, Without, AnyActive, SomeActive;
  }

  /** One edit of a loadable file keeps it loadable, and edits its grants. */
  lemma EditRefines(tokens: seq<Record>, edit: Edit)
    requires Loadable(tokens)
    ensures Loadable(Edited(tokens, edit)) && AllValid(tokens) && AllValid(Edited(tokens, edit))
    ensures Grants(Edited(tokens, edit)) == EditedGrants(Grants(tokens), edit)
  {
    hide Consistent, Edited, EditedGrants;
    match edit
    case Add(addition, now, fault) => AddRefines(tokens, addition, now, fault);
    case Revoke(id, now, fault) => RevokeRefines(tokens, id, now, fault);
  }

  lemma RevokeRefines(tokens: seq<Record>, id: string, now: Time, fault: WriteFault)
    requires Loadable(tokens)
    ensures var next := Edited(tokens, Revoke(id, now, fault));
            && Loadable(next) && AllValid(tokens) && AllValid(next)
            && Grants(next) == EditedGrants(Grants(tokens), Revoke(id, now, fault))
  {
    RevocableExactly(tokens, id, now);
    hide Consistent, AllValid, CredentialOf, Trim, Grants, Without, WrittenAll, GrantsExcept, WrittenGrants, Named,
      Revocable, AnyActive, SomeActive;
    var next := Edited(tokens, Revoke(id, now, fault));
    if Revocable(tokens, id, now) && !fault.NotReplaced? {
      assert next == WrittenAll(Without(tokens, Trim(id)));
      RevokingKeepsLoadable(tokens, id, now);
    } else {
      assert next == tokens;
    }
  }

  lemma AddRefines(tokens: seq<Record>, addition: Addition, now: Time, fault: WriteFault)
    requires Loadable(tokens)
    ensures var next := Edited(tokens, Add(addition, now, fault));
            && Loadable(next) && AllValid(tokens) && AllValid(next)
            && Grants(next) == EditedGrants(Grants(tokens), Add(addition, now, fault))
  {
    AddableExactly(tokens, addition, now);
    hide ValidRecord, AllValid, CredentialOf, Trim, Grants, NewRecord, WrittenAll, WrittenGrants, Named, Addable,
      Requested, Consistent, ParseRole, ValidAllow, ValidCredentialID;
    if Addable(tokens, addition, now) {
      AddingKeepsLoadable(tokens, addition, now);
    }
  }

  /** Over any run of additions and revocations, with any write faults, a loadable file stays loadable, and what it
      grants is what the same edits make of the grants alone. */
  lemma {:induction false} EditsKeepGrants(tokens: seq<Record>, edits: seq<Edit>)
    requires Loadable(tokens)
    ensures Loadable(Run(tokens, edits)) && AllValid(tokens) && AllValid(Run(tokens, edits))
    ensures Grants(Run(tokens, edits)) == RunGrants(Grants(tokens), edits)
  {
    ConsistentIsValid(tokens);
    hide AllValid, Consistent, Grants, Edited, EditedGrants;
    if edits != [] {
      var before := edits[..|edits| - 1];
      EditsKeepGrants(tokens, before);
      EditRefines(Run(tokens, before), edits[|edits| - 1]);
    }
  }

  /** A list that is present but empty. */
  predicate HasEmptyList(credential: Credential) {
    credential.allow.Some? &&
    (credential.allow.value.commands == Some([]) || credential.allow.value.refs == Some([]))
  }

  /** Writing leaves every right alone exactly when no credential has an empty list; and what was written has none. */
  lemma WrittenGrantsExactly(grants: map<Digest, Credential>)
    ensures WrittenGrants(grants) == grants <==> forall d | d in grants :: !HasEmptyList(grants[d])
    ensures forall d | d in WrittenGrants(grants) :: !HasEmptyList(WrittenGrants(grants)[d])
  {
    var written := WrittenGrants(grants);
    assert forall d | d in grants :: WrittenCredential(grants[d]) == grants[d] <==> !HasEmptyList(grants[d]);
    if written == grants {
      assert forall d | d in grants :: written[d] == WrittenCredential(grants[d]);
    }
  }

  /** A credential ID has 1 to 128 letters, digits and marks. */
  lemma CredentialIDsExactly(id: string)
    ensures ValidCredentialID(id) <==>
              && 1 <= |id| <= 128
              && forall i | 0 <= i < |id| :: id[i] in LOWER || id[i] in UPPER || id[i] in DIGITS || id[i] in "._:@-"
  {
    forall i | 0 <= i < |id|
      ensures CredentialChar(id[i]) <==> id[i] in LOWER || id[i] in UPPER || id[i] in DIGITS || id[i] in "._:@-"
    {
      ClassesByLetter(id[i]);
    }
    hide CredentialChar;
  }

  /** Lower case, letter by letter. */
  lemma LowerByLetter(i: nat)
    requires i < 26
    ensures LowerChar(UPPER[i]) == LOWER[i] && LowerChar(LOWER[i]) == LOWER[i]
  {
    assert InOrder('A', UPPER) && InOrder('a', LOWER);
    assert |UPPER| == |LOWER| == 26;
    hide UPPER, LOWER;
  }
}
