/**
 How gateway instances agree on one stored Ed25519 key pair by reading, generating, inserting if absent and reading
 again: the plain build (ensureComplianceSigningKey of gateway/cmd/gateway/main.go) and the sealed build that encrypts
 the private half (EnsureComplianceSigningKey of gateway/internal/compliance/signing_key.go), side by side, while a
 migration (MigrateLegacyPlaintextKey there) rewrites a plain private row as a sealed one.
 */
module SigningKey {
  import opened Outcomes
  import opened Base64Url
  import opened Hex
  import opened Runs

  const PRIV := "compliance_signing_key_priv"
  const PUB := "compliance_signing_key_pub"

  const ENC := "enc:"
  const SEALED := "enc:v1:"

  /** Hex digits of a private key of 64 bytes. */
  const LEGACY_LENGTH := 128

  datatype KeyPair = KeyPair(priv: seq<Byte>, pub: seq<Byte>)

  datatype KeyError = DatabaseError | BadHex | KeysMissing | PlaintextKey | UnknownVersion | Undecryptable

  /**
   The cipher, with the randomness of each encryption as a number, and the public half that a private key contains.
   */
  datatype Crypto = Crypto(
    encrypt: (nat, seq<Byte>) -> seq<Byte>,
    decrypt: seq<Byte> -> Option<seq<Byte>>,
    publicOf: seq<Byte> -> seq<Byte>)

  ghost predicate Sound(k: Crypto) {
    forall n, b :: k.decrypt(k.encrypt(n, b)) == Some(b)
  }

  /** Rows of server_config by key. */
  type Config = map<string, string>

  predicate HasBoth(c: Config) {
    PRIV in c && PUB in c
  }

  // ---- what a private row holds ----

  predicate IsSealed(stored: string) {
    SEALED <= stored
  }

  function Seal(k: Crypto, nonce: nat, priv: seq<Byte>): string {
    SEALED + EncodeHex(k.encrypt(nonce, priv))
  }

  /** The private key in a row of either kind. */
  function Opened(k: Crypto, stored: string): Option<seq<Byte>> {
    if IsSealed(stored) then
      match DecodeHex(stored[|SEALED|..])
      case Some(ciphertext) => k.decrypt(ciphertext)
      case None => None
    else DecodeHex(stored)
  }

  /** A row that the migration rewrites. */
  predicate IsLegacy(stored: string) {
    !(ENC <= stored) && |stored| == LEGACY_LENGTH && DecodeHex(stored).Some?
  }

  lemma SealedIsNotHex(stored: string)
    requires IsSealed(stored)
    ensures DecodeHex(stored) == None && ENC <= stored
  {
    assert stored[0] == SEALED[0] && stored[1] == SEALED[1] && stored[2] == SEALED[2] && stored[3] == SEALED[3];
    assert NibbleValue(stored[1]) == None;
  }

  lemma PlainOpens(k: Crypto, priv: seq<Byte>)
    ensures Opened(k, EncodeHex(priv)) == Some(priv) && !IsSealed(EncodeHex(priv))
  {
    HexRoundTrip(priv);
    if IsSealed(EncodeHex(priv)) {
      SealedIsNotHex(EncodeHex(priv));
    }
  }

  lemma SealOpens(k: Crypto, nonce: nat, priv: seq<Byte>)
    requires Sound(k)
    ensures Opened(k, Seal(k, nonce, priv)) == Some(priv) && IsSealed(Seal(k, nonce, priv))
  {
    HexRoundTrip(k.encrypt(nonce, priv));
    assert Seal(k, nonce, priv)[|SEALED|..] == EncodeHex(k.encrypt(nonce, priv));
  }

  // ---- reading the rows ----

  function Parse(priv: string, pub: string): Result<KeyPair, KeyError> {
    match (DecodeHex(priv), DecodeHex(pub))
    case (Some(a), Some(b)) => Ok(KeyPair(a, b))
    case _ => Err(BadHex)
  }

  /** What the plain build makes of the rows. */
  function Stored(c: Config): Result<KeyPair, KeyError> {
    if HasBoth(c) then Parse(c[PRIV], c[PUB]) else Err(KeysMissing)
  }

  /** LoadComplianceSigningKey: the sealed build reads the private row alone. */
  function Load(k: Crypto, c: Config): Result<KeyPair, KeyError> {
    if PRIV !in c then Err(KeysMissing)
    else if !(ENC <= c[PRIV]) then Err(PlaintextKey)
    else if !IsSealed(c[PRIV]) then Err(UnknownVersion)
    else
      match DecodeHex(c[PRIV][|SEALED|..])
      case None => Err(BadHex)
      case Some(ciphertext) =>
        match k.decrypt(ciphertext)
        case None => Err(Undecryptable)
        case Some(priv) => Ok(KeyPair(priv, k.publicOf(priv)))
  }

  /**
   The rows never satisfy both builds: a sealed row is no hex for the one, and the other refuses a plain one.
   */
  lemma NeverBoth(k: Crypto, c: Config)
    ensures Stored(c).Ok? ==> !IsSealed(c[PRIV]) && Load(k, c).Err?
    ensures Load(k, c).Ok? ==> IsSealed(c[PRIV]) && Stored(c).Err?
  {
    if PRIV in c && IsSealed(c[PRIV]) {
      SealedIsNotHex(c[PRIV]);
    }
  }

  /** Whichever build succeeds has read the private key that the row holds. */
  lemma ReadsOpened(k: Crypto, c: Config)
    ensures Stored(c).Ok? ==>
              Opened(k, c[PRIV]) == Some(Stored(c).value.priv) && DecodeHex(c[PUB]) == Some(Stored(c).value.pub)
    ensures Load(k, c).Ok? ==>
              && Opened(k, c[PRIV]) == Some(Load(k, c).value.priv)
              && Load(k, c).value.pub == k.publicOf(Load(k, c).value.priv)
  {
    NeverBoth(k, c);
    hide DecodeHex;
  }

  // ---- inserting ----

  datatype Build = Plain | Sealing

  /** One row of INSERT ... ON CONFLICT (key) DO NOTHING. */
  function PutAbsent(c: Config, key: string, value: string): Config {
    if key in c then c else c[key := value]
  }

  /** The two-row insert statement. */
  function InsertRows(c: Config, priv: string, pub: string): Config {
    PutAbsent(PutAbsent(c, PRIV, priv), PUB, pub)
  }

  function PrivateRow(k: Crypto, build: Build, nonce: nat, priv: seq<Byte>): string {
    if build.Plain? then EncodeHex(priv) else Seal(k, nonce, priv)
  }

  function InsertKeys(k: Crypto, build: Build, nonce: nat, c: Config, pair: KeyPair): Config {
    InsertRows(c, PrivateRow(k, build, nonce, pair.priv), EncodeHex(pair.pub))
  }

  lemma PrivateRowOpens(k: Crypto, build: Build, nonce: nat, priv: seq<Byte>)
    requires Sound(k)
    ensures Opened(k, PrivateRow(k, build, nonce, priv)) == Some(priv)
  {
    PlainOpens(k, priv);
    SealOpens(k, nonce, priv);
  }

  /** One undisturbed call. The database's failures and the random key pair are inputs. */
  class ServerConfig {
    var rows: Config
    const crypto: Crypto

    constructor (crypto: Crypto, rows: Config)
      ensures this.crypto == crypto && this.rows == rows
    {
      this.crypto := crypto;
      this.rows := rows;
    }

    /** SELECT key, value ... WHERE key IN (priv, pub), scanned row by row into a map. */
    method LoadKeys() returns (kvs: Config)
      ensures forall k :: k in kvs <==> k in rows && (k == PRIV || k == PUB)
      ensures forall k :: k in kvs ==> k == "compliance_signing_key_priv" || k == "compliance_signing_key_pub"
      ensures forall k :: k in kvs ==> kvs[k] == rows[k]
    {
      kvs := map[];
      var selected := set k | k in rows && (k == PRIV || k == PUB);
      while selected != {}
        invariant forall k :: k in selected ==> k in rows && (k == PRIV || k == PUB)
        invariant forall k :: k in kvs <==> k in rows && (k == PRIV || k == PUB) && k !in selected
        invariant forall k :: k in kvs ==> kvs[k] == rows[k]
        decreases |selected|
      {
        var k :| k in selected;
        kvs := kvs[k := rows[k]];
        selected := selected - {k};
      }
    }

    /** The plain build. */
    method EnsureComplianceSigningKey(generated: KeyPair) returns (r: Result<KeyPair, KeyError>)
      modifies this
      ensures rows == if HasBoth(old(rows)) then old(rows)
                      else InsertRows(old(rows), EncodeHex(generated.priv), EncodeHex(generated.pub))
      ensures r == Stored(rows) && r != Err(KeysMissing)
      ensures PRIV !in old(rows) && PUB !in old(rows) ==> r == Ok(generated)
      ensures var was, priv, pub := old(rows), "compliance_signing_key_priv", "compliance_signing_key_pub";
              && (forall k :: k in rows <==> k in was || k == priv || k == pub)
              && (forall k :: k in was ==> rows[k] == was[k])
              && (priv !in was ==> rows[priv] == EncodeHex(generated.priv))
              && (pub !in was ==> rows[pub] == EncodeHex(generated.pub))
              && match r
                 case Ok(pair) => DecodeHex(rows[priv]) == Some(pair.priv) && DecodeHex(rows[pub]) == Some(pair.pub)
                 case Err(e) => e == BadHex && (DecodeHex(rows[priv]).None? || DecodeHex(rows[pub]).None?)
    {
      hide DecodeHex, EncodeHex;
      var kvs := LoadKeys();
      if PRIV in kvs && PUB in kvs {
        return Parse(kvs[PRIV], kvs[PUB]);
      }
      rows := InsertRows(rows, EncodeHex(generated.priv), EncodeHex(generated.pub));
      var persisted := LoadKeys();
      if PRIV !in persisted || PUB !in persisted {
        return Err(KeysMissing);
      }
      HexRoundTrip(generated.priv);
      HexRoundTrip(generated.pub);
      return Parse(persisted[PRIV], persisted[PUB]);
    }

    /** The sealed build: an empty private row counts as none, though it keeps the insert from taking effect. */
    method EnsureSealedSigningKey(generated: KeyPair, nonce: nat) returns (r: Result<KeyPair, KeyError>)
      requires Sound(crypto)
      modifies this
      ensures rows == if PRIV in old(rows) && old(rows)[PRIV] != "" then old(rows)
                      else InsertRows(old(rows), Seal(crypto, nonce, generated.priv), EncodeHex(generated.pub))
      ensures r == Load(crypto, rows) && r != Err(KeysMissing)
      ensures PRIV !in old(rows) ==> r == Ok(KeyPair(generated.priv, crypto.publicOf(generated.priv)))
      ensures var was, priv, pub := old(rows), "compliance_signing_key_priv", "compliance_signing_key_pub";
              if priv in was && was[priv] != "" then rows == was
              else
                && (forall k :: k in rows <==> k in was || k == priv || k == pub)
                && (forall k :: k in was ==> rows[k] == was[k])
                && (priv !in was ==> rows[priv] == "enc:v1:" + EncodeHex(crypto.encrypt(nonce, generated.priv)))
                && (pub !in was ==> rows[pub] == EncodeHex(generated.pub))
      ensures var stored := rows["compliance_signing_key_priv"];
              match r
              case Err(PlaintextKey) => !("enc:" <= stored)
              case Err(UnknownVersion) => "enc:" <= stored && !("enc:v1:" <= stored)
              case Err(BadHex) => "enc:v1:" <= stored && DecodeHex(stored[7..]).None?
              case Err(Undecryptable) =>
                && "enc:v1:" <= stored && DecodeHex(stored[7..]).Some?
                && crypto.decrypt(DecodeHex(stored[7..]).value).None?
              case Err(_) => false
              case Ok(pair) =>
                && "enc:v1:" <= stored && DecodeHex(stored[7..]).Some?
                && crypto.decrypt(DecodeHex(stored[7..]).value) == Some(pair.priv)
                && pair.pub == crypto.publicOf(pair.priv)
    {
      hide DecodeHex, EncodeHex;
      var stored := if PRIV in rows then rows[PRIV] else "";
      if stored != "" {
        return Load(crypto, rows);
      }
      rows := InsertRows(rows, Seal(crypto, nonce, generated.priv), EncodeHex(generated.pub));
      SealedLoads(crypto, nonce, generated.priv, rows);
      return Load(crypto, rows);
    }

    /**
     A plain private row is sealed and still holds the same key; in any other shape it stays, and so do all other rows.
     */
    method MigrateLegacyPlaintextKey(nonce: nat) returns (ok: bool)
      requires Sound(crypto)
      modifies this
      ensures rows.Keys == old(rows).Keys && rows - {PRIV} == old(rows) - {PRIV}
      ensures PRIV in rows ==> Opened(crypto, rows[PRIV]) == Opened(crypto, old(rows)[PRIV])
      ensures PRIV in rows && IsLegacy(old(rows)[PRIV]) ==> IsSealed(rows[PRIV])
      ensures PRIV in rows && !IsLegacy(old(rows)[PRIV]) ==> rows == old(rows)
      ensures ok <==> PRIV !in rows || ENC <= old(rows)[PRIV] || IsLegacy(old(rows)[PRIV])
      ensures var key := "compliance_signing_key_priv";
              var stored := if key in old(rows) then old(rows)[key] else "enc:";
              if "enc:" <= stored then ok && rows == old(rows)
              else if |stored| == 128 && DecodeHex(stored).Some? then
                && ok
                && rows == old(rows)[key := "enc:v1:" + EncodeHex(crypto.encrypt(nonce, DecodeHex(stored).value))]
              else !ok && rows == old(rows)
    {
      hide DecodeHex, EncodeHex;
      if PRIV !in rows {
        return true;
      }
      var stored := rows[PRIV];
      if ENC <= stored {
        return true;
      }
      if |stored| != LEGACY_LENGTH {
        return false;
      }
      var priv := DecodeHex(stored);
      if priv.None? {
        return false;
      }
      SealOpens(crypto, nonce, priv.value);
      assert !IsSealed(stored) by { NotSealed(stored); }
      rows := rows[PRIV := Seal(crypto, nonce, priv.value)];
      return true;
    }
  }

  lemma NotSealed(stored: string)
    requires DecodeHex(stored).Some?
    ensures !IsSealed(stored)
  {
    if IsSealed(stored) {
      SealedIsNotHex(stored);
    }
  }

  lemma SealedLoads(k: Crypto, nonce: nat, priv: seq<Byte>, c: Config)
    requires Sound(k)
    ensures PRIV in c && c[PRIV] == Seal(k, nonce, priv) ==> Load(k, c) == Ok(KeyPair(priv, k.publicOf(priv)))
  {
    SealOpens(k, nonce, priv);
    if PRIV in c && c[PRIV] == Seal(k, nonce, priv) {
      SealedIsNotHex(c[PRIV]);
      HexRoundTrip(k.encrypt(nonce, priv));
    }
  }

  // ---- any number of instances and migrations, interleaved statement by statement ----

  datatype Pc =
    | Reading
    | Inserting
    | Rereading
    | Returned(pair: KeyPair)
    | Failed(error: KeyError)

  datatype Instance = Instance(build: Build, pc: Pc)

  /** A migration reads the private row and rewrites it in a second statement. */
  datatype Migration = Looking | Rewriting(priv: seq<Byte>) | Over

  datatype State = State(config: Config, instances: map<nat, Instance>, migrations: map<nat, Migration>)

  function Result(r: Result<KeyPair, KeyError>): Pc {
    match r
    case Ok(pair) => Returned(pair)
    case Err(e) => Failed(e)
  }

  /** What an instance makes of its first read. */
  function FirstRead(build: Build, c: Config): Pc {
    match build
    case Plain => if HasBoth(c) then Result(Stored(c)) else Inserting
    case Sealing => if PRIV in c && c[PRIV] != "" then Rereading else Inserting
  }

  function LastRead(k: Crypto, build: Build, c: Config): Pc {
    Result(if build.Plain? then Stored(c) else Load(k, c))
  }

  /** The statements of one instance, on the rows themselves. */
  lemma StatementsAre(k: Crypto, c: Config, nonce: nat, pair: KeyPair)
    ensures var priv, pub := "compliance_signing_key_priv", "compliance_signing_key_pub";
            && (FirstRead(Plain, c) == Inserting <==> priv !in c || pub !in c)
            && (FirstRead(Plain, c) != Inserting ==> FirstRead(Plain, c) == LastRead(k, Plain, c))
            && FirstRead(Sealing, c) == (if priv !in c || c[priv] == "" then Inserting else Rereading)
    ensures forall build ::
              var priv, pub := "compliance_signing_key_priv", "compliance_signing_key_pub";
              var d := InsertKeys(k, build, nonce, c, pair);
              && d.Keys == c.Keys + {priv, pub} && (forall key :: key in c ==> d[key] == c[key])
              && (priv !in c ==> d[priv] == if build == Plain then EncodeHex(pair.priv)
                                            else "enc:v1:" + EncodeHex(k.encrypt(nonce, pair.priv)))
              && (pub !in c ==> d[pub] == EncodeHex(pair.pub))
    ensures forall read: KeyPair ::
              var priv, pub := "compliance_signing_key_priv", "compliance_signing_key_pub";
              && (LastRead(k, Plain, c) == Returned(read)
                  <==> && priv in c && pub in c
                       && DecodeHex(c[priv]) == Some(read.priv) && DecodeHex(c[pub]) == Some(read.pub))
              && (LastRead(k, Sealing, c) == Returned(read)
                  <==> && priv in c && "enc:v1:" <= c[priv] && DecodeHex(c[priv][7..]).Some?
                       && k.decrypt(DecodeHex(c[priv][7..]).value) == Some(read.priv)
                       && read.pub == k.publicOf(read.priv))
  {
    hide DecodeHex, EncodeHex;
    assert PRIV in c && SEALED <= c[PRIV] ==> ENC <= c[PRIV];
  }

  /** Who takes part: the cipher, and the key pair that each instance draws. */
  datatype World = World(crypto: Crypto, generate: nat -> KeyPair)

  function MoveTo(s: State, i: nat, pc: Pc): State
    requires i in s.instances
  {
    s.(instances := s.instances[i := s.instances[i].(pc := pc)])
  }

  /** Instance i takes its next statement; every statement may fail, and so may encryption before the second. */
  ghost predicate Step(w: World, s: State, t: State, i: nat) {
    if i !in s.instances then
      exists build :: t == s.(instances := s.instances[i := Instance(build, Reading)])
    else
      var build := s.instances[i].build;
      match s.instances[i].pc
      case Reading =>
        t == MoveTo(s, i, FirstRead(build, s.config)) || t == MoveTo(s, i, Failed(DatabaseError))
      case Inserting =>
        var inserted := InsertKeys(w.crypto, build, i, s.config, w.generate(i));
        || t == MoveTo(s, i, Rereading).(config := inserted)
        || t == MoveTo(s, i, Failed(DatabaseError))
        // the statement took effect and its answer was lost
        || t == MoveTo(s, i, Failed(DatabaseError)).(config := inserted)
      case Rereading =>
        || t == MoveTo(s, i, LastRead(w.crypto, build, s.config))
        || t == MoveTo(s, i, Failed(DatabaseError))
      case _ => false
  }

  function Migrate(s: State, m: nat, pc: Migration): State {
    s.(migrations := s.migrations[m := pc])
  }

  ghost predicate MigrationStep(w: World, s: State, t: State, m: nat) {
    if m !in s.migrations then t == Migrate(s, m, Looking)
    else
      match s.migrations[m]
      case Looking =>
        || t == Migrate(s, m, Over)
        || (PRIV in s.config && IsLegacy(s.config[PRIV])
            && t == Migrate(s, m, Rewriting(DecodeHex(s.config[PRIV]).value)))
      case Rewriting(priv) =>
        || t == Migrate(s, m, Over)
        // UPDATE ... WHERE key = priv, whatever the row holds by now
        || (PRIV in s.config && exists nonce :: t == Rewrite(w, s, m, priv, nonce))
      case Over => false
  }

  function Rewrite(w: World, s: State, m: nat, priv: seq<Byte>, nonce: nat): State {
    Migrate(s, m, Over).(config := s.config[PRIV := Seal(w.crypto, nonce, priv)])
  }

  ghost predicate Next(w: World, s: State, t: State) {
    (exists i :: Step(w, s, t, i)) || exists m :: MigrationStep(w, s, t, m)
  }

  ghost predicate Init(start: Config, s: State) {
    s == State(start, map[], map[])
  }

  ghost function Starts(start: Config): State -> bool {
    s => Init(start, s)
  }

  ghost function Steps(w: World): (State, State) -> bool {
    (s, t) => Next(w, s, t)
  }

  ghost predicate IsExecution(start: Config, w: World, run: seq<State>) {
    Sound(w.crypto) && IsRun(Starts(start), Steps(w), run)
  }

  // ---- what every step keeps ----

  /** The halves that were absent at the start are those of `pair`. */
  ghost predicate FromGeneration(k: Crypto, start: Config, pair: KeyPair, c: Config) {
    && HasBoth(c)
    && (PRIV !in start ==> Opened(k, c[PRIV]) == Some(pair.priv))
    && (PUB !in start ==> c[PUB] == EncodeHex(pair.pub))
  }

  /** Every row is as at the start, the private one up to sealing, or a half of what one of the instances generated. */
  ghost predicate Origin(start: Config, w: World, s: State) {
    && Keeps(w.crypto, start, s.config)
    && (s.config.Keys != start.Keys ==>
          exists g :: g in s.instances && FromGeneration(w.crypto, start, w.generate(g), s.config))
  }

  /** No row is lost or changed, but that the private one may be sealed with the same key inside. */
  ghost predicate Keeps(k: Crypto, c: Config, d: Config) {
    && (forall key :: key in c ==> key in d && (key != PRIV ==> d[key] == c[key]))
    && (forall key :: key in d && key != PRIV && key != PUB ==> key in c)
    && (PRIV in c ==> Opened(k, d[PRIV]) == Opened(k, c[PRIV]) && (d[PRIV] == c[PRIV] || IsSealed(d[PRIV])))
  }

  ghost predicate InstanceAgrees(k: Crypto, c: Config, a: Instance) {
    match a.pc
    case Rereading => PRIV in c && (a.build.Plain? ==> PUB in c)
    case Returned(pair) =>
      && PRIV in c && Opened(k, c[PRIV]) == Some(pair.priv)
      && (match a.build
          case Plain => PUB in c && DecodeHex(c[PUB]) == Some(pair.pub)
          case Sealing => pair.pub == k.publicOf(pair.priv))
    case Failed(e) => e != KeysMissing
    case _ => true
  }

  ghost predicate MigrationAgrees(k: Crypto, c: Config, m: Migration) {
    m.Rewriting? ==> PRIV in c && Opened(k, c[PRIV]) == Some(m.priv)
  }

  ghost predicate Inv(start: Config, w: World, s: State) {
    && Origin(start, w, s)
    && (forall i :: i in s.instances ==> InstanceAgrees(w.crypto, s.config, s.instances[i]))
    && (forall m :: m in s.migrations ==> MigrationAgrees(w.crypto, s.config, s.migrations[m]))
  }

  lemma AgreesLater(k: Crypto, c: Config, d: Config, a: Instance)
    requires InstanceAgrees(k, c, a) && Keeps(k, c, d)
    ensures InstanceAgrees(k, d, a)
  {
    hide Opened, IsSealed, DecodeHex;
  }

  lemma KeepsTransitive(k: Crypto, c: Config, d: Config, e: Config)
    requires Keeps(k, c, d) && Keeps(k, d, e)
    ensures Keeps(k, c, e)
  {
    hide Opened, IsSealed;
  }

  lemma InsertKeeps(w: World, build: Build, c: Config, i: nat)
    requires Sound(w.crypto)
    ensures var d := InsertKeys(w.crypto, build, i, c, w.generate(i));
            && Keeps(w.crypto, c, d) && HasBoth(d)
            && (PRIV !in c ==> Opened(w.crypto, d[PRIV]) == Some(w.generate(i).priv))
            && (PUB !in c ==> d[PUB] == EncodeHex(w.generate(i).pub))
            && (HasBoth(c) ==> d == c)
  {
    PrivateRowOpens(w.crypto, build, i, w.generate(i).priv);
    hide Opened, PrivateRow, EncodeHex, IsSealed;
    assert |PRIV| != |PUB|;
  }

  /** After an insert that added a row, the rows absent at the start are this instance's halves or were one's before. */
  lemma InsertOrigin(start: Config, w: World, s: State, t: State, i: nat)
    requires Sound(w.crypto) && Origin(start, w, s) && i in s.instances
    requires t.config == InsertKeys(w.crypto, s.instances[i].build, i, s.config, w.generate(i))
    requires t.instances.Keys == s.instances.Keys
    ensures Origin(start, w, t)
  {
    InsertKeeps(w, s.instances[i].build, s.config, i);
    KeepsTransitive(w.crypto, start, s.config, t.config);
    hide InsertKeys, Opened, EncodeHex;
    if s.config.Keys != start.Keys {
      var g :| g in s.instances && FromGeneration(w.crypto, start, w.generate(g), s.config);
      assert t.config == s.config;
    } else {
      assert FromGeneration(w.crypto, start, w.generate(i), t.config);
    }
  }

  lemma StepShape(w: World, s: State, t: State, i: nat)
    requires Sound(w.crypto) && Step(w, s, t, i)
    ensures i in t.instances && t.instances == s.instances[i := t.instances[i]] && t.migrations == s.migrations
    ensures t.config == s.config
            || (i in s.instances && t.config == InsertKeys(w.crypto, s.instances[i].build, i, s.config, w.generate(i)))
    ensures Keeps(w.crypto, s.config, t.config)
  {
    hide InsertKeys, FirstRead, LastRead, Keeps;
    KeepsSame(w.crypto, s.config);
    if i in s.instances {
      InsertKeeps(w, s.instances[i].build, s.config, i);
    }
  }

  lemma KeepsSame(k: Crypto, c: Config)
    ensures Keeps(k, c, c)
  {
  }

  lemma OwnAgrees(w: World, s: State, t: State, i: nat)
    requires Sound(w.crypto) && Step(w, s, t, i)
    requires i in s.instances ==> InstanceAgrees(w.crypto, s.config, s.instances[i])
    ensures i in t.instances && InstanceAgrees(w.crypto, t.config, t.instances[i])
  {
    hide InsertKeys, Opened, Stored, Load, DecodeHex, IsSealed, Keeps;
    if i in s.instances {
      InsertKeeps(w, s.instances[i].build, s.config, i);
    }
    ReadsOpened(w.crypto, s.config);
    LoadMissing(w.crypto, s.config);
  }

  lemma LoadMissing(k: Crypto, c: Config)
    ensures PRIV in c ==> Load(k, c) != Err(KeysMissing)
    ensures HasBoth(c) ==> Stored(c) != Err(KeysMissing)
  {
    hide DecodeHex, IsSealed;
  }

  lemma StepKeeps(start: Config, w: World, s: State, t: State, i: nat)
    requires Sound(w.crypto) && Inv(start, w, s) && Step(w, s, t, i)
    ensures Inv(start, w, t)
  {
    StepShape(w, s, t, i);
    OwnAgrees(w, s, t, i);
    hide Step, InsertKeys, InstanceAgrees;
    if t.config == s.config {
      OriginStays(start, w, s, t);
    } else {
      InsertOrigin(start, w, s, t, i);
    }
    hide Origin;
    forall j | j in t.instances ensures InstanceAgrees(w.crypto, t.config, t.instances[j]) {
      if j != i {
        AgreesLater(w.crypto, s.config, t.config, s.instances[j]);
      }
    }
  }

  lemma OriginStays(start: Config, w: World, s: State, t: State)
    requires Origin(start, w, s) && t.config == s.config && s.instances.Keys <= t.instances.Keys
    ensures Origin(start, w, t)
  {
    hide Keeps, FromGeneration;
  }

  /** A rewriting seals the key that the row holds at that moment. */
  lemma MigrationShape(w: World, s: State, t: State, m: nat)
    requires Sound(w.crypto) && MigrationStep(w, s, t, m)
    requires m in s.migrations ==> MigrationAgrees(w.crypto, s.config, s.migrations[m])
    ensures m in t.migrations && t.migrations == s.migrations[m := t.migrations[m]] && t.instances == s.instances
    ensures Keeps(w.crypto, s.config, t.config) && t.config.Keys == s.config.Keys
    ensures MigrationAgrees(w.crypto, t.config, t.migrations[m])
    ensures t.config != s.config ==> m in s.migrations && s.migrations[m].Rewriting?
  {
    if m in s.migrations && s.migrations[m].Rewriting? && t.config != s.config {
      var nonce :| t == Rewrite(w, s, m, s.migrations[m].priv, nonce);
      SealOpens(w.crypto, nonce, s.migrations[m].priv);
    } else if PRIV in s.config && IsLegacy(s.config[PRIV]) {
      NotSealed(s.config[PRIV]);
    }
    hide Seal, DecodeHex, IsSealed;
  }

  lemma MigrationKeeps(start: Config, w: World, s: State, t: State, m: nat)
    requires Sound(w.crypto) && Inv(start, w, s) && MigrationStep(w, s, t, m)
    ensures Inv(start, w, t)
  {
    MigrationShape(w, s, t, m);
    hide MigrationStep, InstanceAgrees;
    MigratedOrigin(start, w, s, t);
    hide Origin;
    forall j | j in t.instances ensures InstanceAgrees(w.crypto, t.config, t.instances[j]) {
      AgreesLater(w.crypto, s.config, t.config, s.instances[j]);
    }
  }

  lemma MigratedOrigin(start: Config, w: World, s: State, t: State)
    requires Origin(start, w, s) && Keeps(w.crypto, s.config, t.config) && t.config.Keys == s.config.Keys
    requires t.instances == s.instances
    ensures Origin(start, w, t)
  {
    KeepsTransitive(w.crypto, start, s.config, t.config);
    hide Opened, EncodeHex, IsSealed;
    if t.config.Keys != start.Keys {
      var g :| g in s.instances && FromGeneration(w.crypto, start, w.generate(g), s.config);
      assert FromGeneration(w.crypto, start, w.generate(g), t.config);
    }
  }

  ghost function Invs(start: Config, w: World): State -> bool {
    s => Inv(start, w, s)
  }

  lemma Invariant(start: Config, w: World, run: seq<State>, i: nat)
    requires IsExecution(start, w, run) && i < |run|
    ensures IsInvariant(Starts(start), Steps(w), Invs(start, w))
    ensures Inv(start, w, run[i])
  {
    hide Step, MigrationStep;
    forall s: State, t: State | Inv(start, w, s) && Next(w, s, t) ensures Inv(start, w, t) {
      if n :| Step(w, s, t, n) {
        StepKeeps(start, w, s, t, n);
      } else {
        var m :| MigrationStep(w, s, t, m);
        MigrationKeeps(start, w, s, t, m);
      }
    }
    Always(Starts(start), Steps(w), Invs(start, w), run, i);
  }

  // ---- what holds over whole runs ----

  ghost predicate KeepsFrom(w: World, s: State, t: State) {
    Keeps(w.crypto, s.config, t.config)
  }

  ghost function Keeping(w: World): (State, State) -> bool {
    (s, t) => KeepsFrom(w, s, t)
  }

  lemma NextKeeps(start: Config, w: World, s: State, t: State)
    requires Sound(w.crypto) && Inv(start, w, s) && Next(w, s, t)
    ensures Keeps(w.crypto, s.config, t.config)
  {
    hide Step, MigrationStep, Keeps;
    if n :| Step(w, s, t, n) {
      StepShape(w, s, t, n);
    } else {
      var m :| MigrationStep(w, s, t, m);
      MigrationShape(w, s, t, m);
    }
  }

  /**
   Once a row is there it stays: the public one as it is, the private one with the same key inside, as it is or sealed.
   */
  lemma StoredPairNeverChanges(start: Config, w: World, run: seq<State>, i: nat, j: nat)
    requires IsExecution(start, w, run) && i <= j < |run|
    ensures PUB in run[i].config ==> PUB in run[j].config && run[j].config[PUB] == run[i].config[PUB]
    ensures PRIV in run[i].config ==>
              && PRIV in run[j].config
              && Opened(w.crypto, run[j].config[PRIV]) == Opened(w.crypto, run[i].config[PRIV])
              && (run[j].config[PRIV] == run[i].config[PRIV] || IsSealed(run[j].config[PRIV]))
  {
    Invariant(start, w, run, i);
    hide Inv, Next, Opened, IsSealed;
    forall s: State, t: State, u: State | KeepsFrom(w, s, t) && Inv(start, w, t) && Next(w, t, u)
      ensures KeepsFrom(w, s, u)
    {
      NextKeeps(start, w, t, u);
      KeepsTransitive(w.crypto, s.config, t.config, u.config);
    }
    Ever(Starts(start), Steps(w), Invs(start, w), Keeping(w), run, i, j);
    assert KeepsFrom(w, run[i], run[j]);
    assert |PRIV| != |PUB|;
  }

  /** The private row is there, not plain, and no migration is about to rewrite it. */
  ghost predicate Settled(s: State) {
    && HasBoth(s.config) && !IsLegacy(s.config[PRIV])
    && forall m :: m in s.migrations ==> !s.migrations[m].Rewriting?
  }

  ghost predicate SettledStays(s: State, t: State) {
    Settled(s) ==> Settled(t) && t.config == s.config
  }

  ghost function SettledStaying(): (State, State) -> bool {
    (s, t) => SettledStays(s, t)
  }

  lemma NextSettled(w: World, s: State, t: State)
    requires Sound(w.crypto) && Settled(s) && Next(w, s, t)
    ensures Settled(t) && t.config == s.config
  {
    if n :| Step(w, s, t, n) {
      StepShape(w, s, t, n);
      if n in s.instances {
        InsertKeeps(w, s.instances[n].build, s.config, n);
      }
      hide Step, InsertKeys, IsLegacy;
    } else {
      hide Step, IsLegacy, Seal, DecodeHex;
    }
  }

  /** A private row that is not plain changes no more, unless a migration that read it plain has still to rewrite it. */
  lemma SettledRowsStay(start: Config, w: World, run: seq<State>, i: nat, j: nat)
    requires IsExecution(start, w, run) && i <= j < |run| && Settled(run[i])
    ensures run[j].config == run[i].config
  {
    Invariant(start, w, run, i);
    hide Inv, Next, Settled;
    forall s: State, t: State, u: State | SettledStays(s, t) && Inv(start, w, t) && Next(w, t, u)
      ensures SettledStays(s, u)
    {
      if Settled(s) {
        NextSettled(w, t, u);
      }
    }
    Ever(Starts(start), Steps(w), Invs(start, w), SettledStaying(), run, i, j);
    assert SettledStays(run[i], run[j]);
  }

  /**
   All instances that return a pair, of either build, at whatever moments and with whatever migrations in between,
   return the same private key, and instances of one build the same pair.
   */
  lemma Agreement(start: Config, w: World, run: seq<State>, i: nat, j: nat, a: nat, b: nat)
    requires IsExecution(start, w, run) && i <= j < |run|
    requires a in run[i].instances && run[i].instances[a].pc.Returned?
    requires b in run[j].instances && run[j].instances[b].pc.Returned?
    ensures var x, y := run[i].instances[a], run[j].instances[b];
            x.pc.pair.priv == y.pc.pair.priv && (x.build == y.build ==> x.pc.pair == y.pc.pair)
  {
    Invariant(start, w, run, i);
    Invariant(start, w, run, j);
    assert InstanceAgrees(w.crypto, run[i].config, run[i].instances[a]);
    assert InstanceAgrees(w.crypto, run[j].config, run[j].instances[b]);
    StoredPairNeverChanges(start, w, run, i, j);
    hide Opened, DecodeHex, IsSealed, Inv;
  }

  /** The rows are there when the second read looks for them: no instance ever finds them missing. */
  lemma NeverMissing(start: Config, w: World, run: seq<State>, i: nat, a: nat)
    requires IsExecution(start, w, run) && i < |run| && a in run[i].instances
    ensures run[i].instances[a].pc != Failed(KeysMissing)
  {
    Invariant(start, w, run, i);
    assert InstanceAgrees(w.crypto, run[i].config, run[i].instances[a]);
  }

  /** The stored half where there was one, and otherwise the half of this generation. */
  ghost predicate Composed(k: Crypto, start: Config, generated: KeyPair, pair: KeyPair) {
    && Some(pair.priv) == (if PRIV in start then Opened(k, start[PRIV]) else Some(generated.priv))
    && Some(pair.pub) == (if PUB in start then DecodeHex(start[PUB]) else Some(generated.pub))
  }

  /** Both halves that a plain instance returns, if absent at the start, were generated by one instance of the run. */
  lemma HalvesBelongTogether(start: Config, w: World, run: seq<State>, i: nat, a: nat)
    requires IsExecution(start, w, run) && i < |run|
    requires a in run[i].instances && run[i].instances[a].build.Plain? && run[i].instances[a].pc.Returned?
    ensures exists g :: g in run[i].instances && Composed(w.crypto, start, w.generate(g), run[i].instances[a].pc.pair)
  {
    Invariant(start, w, run, i);
    var s := run[i];
    assert InstanceAgrees(w.crypto, s.config, s.instances[a]);
    hide Opened, DecodeHex, EncodeHex, IsSealed;
    assert |PRIV| != |PUB|;
    if s.config.Keys == start.Keys {
      assert Composed(w.crypto, start, w.generate(a), s.instances[a].pc.pair);
    } else {
      var g :| g in s.instances && FromGeneration(w.crypto, start, w.generate(g), s.config);
      HexRoundTrip(w.generate(g).pub);
      assert Composed(w.crypto, start, w.generate(g), s.instances[a].pc.pair);
    }
  }

  /**
   Starting with at most one of the rows, the pair a plain instance returns is what one instance of the run generated
   exactly if neither row stood there: a lone row, which no instance of the run draws by itself, is kept and paired
   with a half drawn later.
   */
  lemma OneGeneration(start: Config, w: World, run: seq<State>, i: nat, a: nat)
    requires IsExecution(start, w, run) && i < |run| && !HasBoth(start)
    requires a in run[i].instances && run[i].instances[a].build.Plain? && run[i].instances[a].pc.Returned?
    requires forall g :: g in run[i].instances && PRIV in start ==>
                           Opened(w.crypto, start[PRIV]) != Some(w.generate(g).priv)
    requires forall g :: g in run[i].instances && PUB in start ==> DecodeHex(start[PUB]) != Some(w.generate(g).pub)
    ensures (exists g :: g in run[i].instances && run[i].instances[a].pc.pair == w.generate(g))
            <==> PRIV !in start && PUB !in start
  {
    HalvesBelongTogether(start, w, run, i, a);
    hide Opened, DecodeHex;
    var g :| g in run[i].instances && Composed(w.crypto, start, w.generate(g), run[i].instances[a].pc.pair);
  }

  /** The private half of a generated pair contains its public half, as Ed25519 has it. */
  ghost predicate Genuine(w: World) {
    forall g :: w.generate(g).pub == w.crypto.publicOf(w.generate(g).priv)
  }

  /** From absent rows, instances of both builds agree on the whole pair: what one instance of the run generated. */
  lemma BuildsAgree(start: Config, w: World, run: seq<State>, i: nat, j: nat, a: nat, b: nat)
    requires IsExecution(start, w, run) && i <= j < |run| && Genuine(w) && PRIV !in start && PUB !in start
    requires a in run[i].instances && run[i].instances[a].pc.Returned?
    requires b in run[j].instances && run[j].instances[b].pc.Returned?
    ensures run[i].instances[a].pc.pair == run[j].instances[b].pc.pair
    ensures exists g :: g in run[i].instances && run[i].instances[a].pc.pair == w.generate(g)
  {
    GenuinePair(start, w, run, i, a);
    GenuinePair(start, w, run, j, b);
    Agreement(start, w, run, i, j, a, b);
  }

  lemma GenuinePair(start: Config, w: World, run: seq<State>, i: nat, a: nat)
    requires IsExecution(start, w, run) && i < |run| && Genuine(w) && PRIV !in start && PUB !in start
    requires a in run[i].instances && run[i].instances[a].pc.Returned?
    ensures var pair := run[i].instances[a].pc.pair;
            pair.pub == w.crypto.publicOf(pair.priv) && exists g :: g in run[i].instances && pair == w.generate(g)
  {
    Invariant(start, w, run, i);
    var s := run[i];
    assert InstanceAgrees(w.crypto, s.config, s.instances[a]);
    hide Opened, DecodeHex, EncodeHex, IsSealed;
    var g :| g in s.instances && FromGeneration(w.crypto, start, w.generate(g), s.config);
    HexRoundTrip(w.generate(g).pub);
    assert s.instances[a].pc.pair == w.generate(g);
  }
}
