/** The entities of storage.go: content, nodes, sealed payloads and the arguments of an append. */
module Records {
  import opened Outcomes
  import opened Text

  newtype byte = b: int | 0 <= b < 256

  const MAX_INT64: int := 0x7FFF_FFFF_FFFF_FFFF

  /** Go's `int` and `int64` on a 64-bit platform. */
  type Int64 = x: int | -MAX_INT64 - 1 <= x <= MAX_INT64

  /** Two's complement wrap-around. */
  function Wrap64(x: int): Int64 {
    if -MAX_INT64 - 1 <= x <= MAX_INT64 then x
    else (x + MAX_INT64 + 1) % (2 * (MAX_INT64 + 1)) - MAX_INT64 - 1
  }

  function Min(a: int, b: int): int {
    if a < b then a else b
  }

  /** A byte slice; its length is an `int`. */
  type Bytes = s: seq<byte> | |s| <= MAX_INT64

  /** Nanoseconds since Go's zero time. */
  type Time = int

  const ZERO_TIME: Time := 0
  const MICROSECOND: Time := 1000

  const SCHEMA_VERSION := 1

  predicate IsHexDigit(c: char) {
    '0' <= c <= '9' || 'a' <= c <= 'f' || 'A' <= c <= 'F'
  }

  /** `validateHash`: "sha256:" and 64 hexadecimal digits. */
  predicate ValidHash(s: string) {
    |s| == 71 && HasPrefix(s, "sha256:") && forall i | 7 <= i < 71 :: IsHexDigit(s[i])
  }

  type Address = s: string | ValidHash(s) witness "sha256:" + seq(64, _ => '0')

  /** A hash has no white space at its ends. */
  lemma HashIsTrimmed(hash: string)
    requires ValidHash(hash)
    ensures Trim(hash) == hash != ""
  {
    assert hash[0] == "sha256:"[0] && IsHexDigit(hash[70]);
    TrimKeepsTrimmed(hash);
  }

  /** An `EncryptedPayload`. */
  datatype Sealed = Sealed(algorithm: string, nonce: string, ciphertext: string)

  /** A `nodeContent`: everything a node's hash covers. `payload` is empty when there is none. */
  datatype Content = Content(
    schema: int, kind: string, entityID: string, parents: seq<string>, payload: Bytes,
    sealedPayload: Option<Sealed>, actor: string, role: string, command: string, createdAt: Time,
    requestID: string, requestHash: string)

  datatype Node = Node(hash: string, content: Content)

  datatype RequestRecord = RequestRecord(hash: string, requestHash: string)

  datatype Context = Context(actor: string, role: string)

  /** `payload` is the JSON encoding of the caller's value, or None when it cannot be encoded. */
  datatype AppendOptions = AppendOptions(
    kind: string, entityID: string, command: string, payload: Option<Bytes>, createdAt: Time,
    requestID: string, requestHash: string)

  type Key = Bytes
  type Nonce = Bytes

  /** What the store takes from libraries: the content hash, authenticated encryption, and the
      compaction that `json.Marshal` applies to a raw message (None when it is not JSON). Nothing is
      assumed about the hash. */
  datatype Env = Env(
    hash: Content -> Address,
    seal: (Key, Nonce, Bytes) -> Sealed,
    open: (Key, Sealed) -> Option<Bytes>,
    compact: Bytes -> Option<Bytes>)
  {
    /** Opening undoes sealing under the same key. */
    ghost predicate OpenUndoesSeal() {
      forall key: Key, nonce: Nonce, plain: Bytes :: open(key, seal(key, nonce, plain)) == Some(plain)
    }
  }

  /** Two different contents with the same hash. */
  ghost predicate Collision(env: Env, a: Content, b: Content) {
    a != b && env.hash(a) == env.hash(b)
  }

  /** `replayMetadata`: the node without its payload and its request hash. */
  function ReplayMetadata(node: Node): Node {
    Node(node.hash, node.content.(payload := [], sealedPayload := None, requestHash := ""))
  }

  /** `Time.Truncate(time.Microsecond)`. */
  function Truncate(t: Time): Time {
    t - t % MICROSECOND
  }

  /** `nodePayload`. */
  function NodePayload(env: Env, key: Key, node: Node): Result<Bytes> {
    match node.content.sealedPayload
    case Some(sealed) =>
      (match env.open(key, sealed)
       case Some(plain) => Ok(plain)
       case None => Err(Integrity))
    case None =>
      if |node.content.payload| > 0 then Ok(node.content.payload) else Err(Integrity)
  }

  /** The content that `append` builds on top of `root`. */
  function NewContent(env: Env, key: Key, nonce: Nonce, now: Time, root: string, ctx: Context,
                      opts: AppendOptions, raw: Bytes): Content
  {
    Content(
      SCHEMA_VERSION, Trim(opts.kind), Trim(opts.entityID), if root == "" then [] else [root], [],
      Some(env.seal(key, nonce, raw)), ctx.actor, ctx.role, Trim(opts.command),
      Truncate(if opts.createdAt == ZERO_TIME then now else opts.createdAt),
      opts.requestID, opts.requestHash)
  }

  function NodeOf(env: Env, content: Content): Node {
    Node(env.hash(content), content)
  }

  /** A sealed payload reads back as what was sealed, a plain one as itself, and a node without either not at all. */
  lemma PayloadsReadBack(env: Env, key: Key, nonce: Nonce, plain: Bytes, node: Node)
    requires env.OpenUndoesSeal()
    ensures node.content.sealedPayload == Some(env.seal(key, nonce, plain)) ==> NodePayload(env, key, node) == Ok(plain)
    ensures node.content.sealedPayload == None && node.content.payload != [] ==>
              NodePayload(env, key, node) == Ok(node.content.payload)
    ensures node.content.sealedPayload == None && node.content.payload == [] ==>
              NodePayload(env, key, node) == Err(Integrity)
  {
  }

  /** A hash is "sha256:" and 64 hexadecimal digits of either case. */
  lemma HashesExactly(s: string)
    ensures ValidHash(s) <==>
              && |s| == 71 && s[..7] == "sha256:"
              && forall i | 7 <= i < 71 :: s[i] in "0123456789abcdefABCDEF"
  {
    forall i | 0 <= i < |s| ensures IsHexDigit(s[i]) <==> s[i] in "0123456789abcdefABCDEF" {
      HexDigitsExactly(s[i]);
    }
    hide IsHexDigit;
  }

  lemma HexDigitsExactly(c: char)
    ensures IsHexDigit(c) <==> c in "0123456789abcdefABCDEF"
  {
    var digits := "0123456789abcdefABCDEF";
    assert forall i | 0 <= i < 10 :: digits[i] == '0' + i as char;
    assert forall i | 10 <= i < 16 :: digits[i] == 'a' + (i - 10) as char;
    assert forall i | 16 <= i < 22 :: digits[i] == 'A' + (i - 16) as char;
    if '0' <= c <= '9' {
      assert digits[(c - '0') as int] == c;
    }
    if 'a' <= c <= 'f' {
      assert digits[(c - 'a') as int + 10] == c;
    }
    if 'A' <= c <= 'F' {
      assert digits[(c - 'A') as int + 16] == c;
    }
  }
}
