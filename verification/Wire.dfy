/** Messages, the byte layout of src/common/crypto.rs, and the two modes in which
    a frame is written and read. The library primitives are parameters. */
module Wire {
  import opened Basics

  /** The messages that matter to the handshake and the registry. Every message
      that the server only forwards to input handling is Input. */
  datatype Msg =
    | KeyExchange(publicKey: seq<byte>)
    | KeyExchangeAck(publicKey: seq<byte>)
    | AuthRequest(code: seq<byte>)
    | AuthResponse(success: bool)
    | ScreenFrame(data: seq<byte>)
    | StartStream
    | RequestQualityChange
    | QualityChange
    | Disconnect
    | Input

  type Key = seq<byte>

  /** X25519, SHA-256, AES-256-GCM and bincode. */
  datatype Primitives = Primitives(
    publicOf: nat -> seq<byte>,
    diffieHellman: (nat, seq<byte>) -> seq<byte>,
    sha256: seq<byte> -> seq<byte>,
    aeadSeal: (Key, seq<byte>, seq<byte>) -> seq<byte>,
    aeadOpen: (Key, seq<byte>, seq<byte>) -> Option<seq<byte>>,
    serialize: Msg -> seq<byte>,
    deserialize: seq<byte> -> Option<Msg>)

  const NONCE := 12
  const PUBLIC_KEY := 32

  /** What the protocol needs of the primitives: agreement of X25519 (section 6.1
      of RFC 7748), and that opening undoes sealing and parsing undoes serialising. */
  ghost predicate Sound(p: Primitives) {
    && (forall a, b :: p.diffieHellman(a, p.publicOf(b)) == p.diffieHellman(b, p.publicOf(a)))
    && (forall a :: |p.publicOf(a)| == PUBLIC_KEY)
    && (forall k, n, t :: |n| == NONCE ==> p.aeadOpen(k, n, p.aeadSeal(k, n, t)) == Some(t))
    && (forall m :: p.deserialize(p.serialize(m)) == Some(m))
  }

  /** CryptoSession::from_shared_secret after compute_shared_secret. */
  function AgreedKey(p: Primitives, secret: nat, theirPublic: seq<byte>): Key {
    p.sha256(p.diffieHellman(secret, theirPublic))
  }

  function Encrypt(p: Primitives, k: Key, nonce: seq<byte>, plain: seq<byte>): seq<byte> {
    nonce + p.aeadSeal(k, nonce, plain)
  }

  function Decrypt(p: Primitives, k: Key, data: seq<byte>): Option<seq<byte>> {
    if |data| < NONCE then None else p.aeadOpen(k, data[..NONCE], data[NONCE..])
  }

  /** Twelve bytes of nonce, then the ciphertext; anything shorter is refused. */
  lemma NonceComesFirst(p: Primitives, k: Key, nonce: seq<byte>, plain: seq<byte>, data: seq<byte>)
    ensures |nonce| == 12 ==> Encrypt(p, k, nonce, plain)[..12] == nonce
    ensures |nonce| == 12 ==> Encrypt(p, k, nonce, plain)[12..] == p.aeadSeal(k, nonce, plain)
    ensures |data| < 12 ==> Decrypt(p, k, data) == None
    ensures |data| >= 12 ==> Decrypt(p, k, data) == p.aeadOpen(k, data[..12], data[12..])
  {
  }

  lemma DecryptEncrypt(p: Primitives, k: Key, nonce: seq<byte>, plain: seq<byte>)
    requires Sound(p) && |nonce| == NONCE
    ensures Decrypt(p, k, Encrypt(p, k, nonce, plain)) == Some(plain)
  {
    var data := Encrypt(p, k, nonce, plain);
    assert data[..NONCE] == nonce && data[NONCE..] == p.aeadSeal(k, nonce, plain);
  }

  datatype Mode = Plain | Sealed(key: Key)

  /** A frame in flight: the message and the mode it was written in. */
  datatype Frame = Frame(mode: Mode, msg: Msg)

  function PayloadOf(p: Primitives, f: Frame, nonce: seq<byte>): seq<byte> {
    match f.mode
    case Plain => p.serialize(f.msg)
    case Sealed(k) => Encrypt(p, k, nonce, p.serialize(f.msg))
  }

  function ReadAs(p: Primitives, mode: Mode, payload: seq<byte>): Option<Msg> {
    match mode
    case Plain => p.deserialize(payload)
    case Sealed(k) =>
      match Decrypt(p, k, payload)
      case None => None
      case Some(plain) => p.deserialize(plain)
  }

  /** A frame read in the mode it was written in yields the message that was sent. */
  lemma ReadInWrittenMode(p: Primitives, f: Frame, nonce: seq<byte>)
    requires Sound(p) && |nonce| == NONCE
    ensures ReadAs(p, f.mode, PayloadOf(p, f, nonce)) == Some(f.msg)
  {
    if f.mode.Sealed? {
      DecryptEncrypt(p, f.mode.key, nonce, p.serialize(f.msg));
    }
  }

  /** Both ends derive one key from each other's public keys. */
  lemma KeysAgree(p: Primitives, a: nat, b: nat)
    requires Sound(p)
    ensures AgreedKey(p, a, p.publicOf(b)) == AgreedKey(p, b, p.publicOf(a))
  {
  }

  // ---------- The hypotheses are consistent ----------

  /** One concrete serialisation: a tag, then the data if there is any. */
  function Tagged(m: Msg): seq<byte> {
    match m
    case KeyExchange(k) => [0] + k
    case KeyExchangeAck(k) => [1] + k
    case AuthRequest(c) => [2] + c
    case AuthResponse(ok) => [3, if ok then 1 else 0]
    case ScreenFrame(data) => [4] + data
    case StartStream => [5]
    case RequestQualityChange => [6]
    case QualityChange => [7]
    case Disconnect => [8]
    case Input => [9]
  }

  function Untagged(b: seq<byte>): Option<Msg> {
    if b == [] then None
    else
      match b[0]
      case 0 => Some(KeyExchange(b[1..]))
      case 1 => Some(KeyExchangeAck(b[1..]))
      case 2 => Some(AuthRequest(b[1..]))
      case 3 => if |b| == 2 then Some(AuthResponse(b[1] == 1)) else None
      case 4 => Some(ScreenFrame(b[1..]))
      case 5 => Some(StartStream)
      case 6 => Some(RequestQualityChange)
      case 7 => Some(QualityChange)
      case 8 => Some(Disconnect)
      case 9 => Some(Input)
      case _ => None
  }

  lemma UntaggedTagged(m: Msg)
    ensures Untagged(Tagged(m)) == Some(m)
  {
    match m {
      case KeyExchange(k) => assert Tagged(m)[1..] == k;
      case KeyExchangeAck(k) => assert Tagged(m)[1..] == k;
      case AuthRequest(c) => assert Tagged(m)[1..] == c;
      case ScreenFrame(data) => assert Tagged(m)[1..] == data;
      case _ =>
    }
  }

  /** Toy primitives, with a constant key agreement and the identity as cipher. */
  function ToyPrimitives(): Primitives {
    Primitives(_ => ToyKey(), (_, _) => [], t => t, (_, _, t) => t, (_, _, t) => Some(t), Tagged, Untagged)
  }

  function ToyKey(): (k: seq<byte>)
    ensures |k| == PUBLIC_KEY
  {
    seq(PUBLIC_KEY, _ => 0)
  }

  /** They meet the hypotheses, so results that assume them are not vacuous. */
  lemma SoundPrimitivesExist()
    ensures Sound(ToyPrimitives())
  {
    forall m
      ensures Untagged(Tagged(m)) == Some(m)
    {
      UntaggedTagged(m);
    }
  }
}
