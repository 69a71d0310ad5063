/** Access grants as text (grant/access.go, ParseAccess and Serialize). */
module AccessGrants {
  import opened Prelude
  import opened Crypto
  import opened KeyTrie
  import opened StoreModel
  import opened KeyStore
  import opened PathCipher
  import opened PathEncryption
  import opened Macaroons
  import opened Caveats
  import opened MacaroonFormat
  import opened Base58
  import opened Access

  datatype Scope = Scope(satelliteAddr: Bytes, apiKey: Bytes, encryptionAccess: EncryptionAccess)

  /** Marshalling of a scope, which is generated code. */
  datatype ScopeCodecRaw = ScopeCodecRaw(marshal: Scope -> Bytes, unmarshal: Bytes -> Option<Scope>) {
    ghost predicate Lawful() {
      forall s :: unmarshal(marshal(s)) == Some(s)
    }
  }

  datatype GrantTextError =
    | InvalidFormat
    | UnableToUnmarshal
    | MissingSatellite
    | MissingApiKey
    | MissingEncryptionAccess
    | MalformedApiKey
    | MalformedEncryptionAccess(error: ImportError)

  /** An access grant with the value of its store. */
  datatype Opened = Opened(satelliteAddress: Bytes, apiKey: Macaroon, store: Model)

  /** The text, once the entries of the store are listed in some order. */
  ghost function TextOf(scopes: ScopeCodecRaw, checksum: Checksum, satellite: Bytes, m: Macaroon, s: Model, adds: seq<Addition>): Bytes {
    CheckEncode(checksum, scopes.marshal(Scope(satellite, Serialize(m), Export(s, adds))), 0)
  }

  ghost function ScopeOf(scopes: ScopeCodecRaw, checksum: Checksum, text: Bytes): Result<Scope, GrantTextError> {
    var decoded := CheckDecode(checksum, text);
    if decoded.Err? || decoded.value.version != 0 then Err(InvalidFormat)
    else
      match scopes.unmarshal(decoded.value.data)
      case None => Err(UnableToUnmarshal)
      case Some(scope) => Ok(scope)
  }

  ghost function Open(p: Primitives, codec: CodecRaw, scope: Scope): Result<Opened, GrantTextError> {
    if scope.satelliteAddr == [] then Err(MissingSatellite)
    else
      match ParseMacaroon(scope.apiKey)
      case Err(_) => Err(MalformedApiKey)
      case Ok(m) =>
        match Import(scope.encryptionAccess)
        case Err(e) => Err(MalformedEncryptionAccess(e))
        case Ok(s) => Ok(Opened(scope.satelliteAddr, m, LimitTo(p, codec, s, m)))
  }

  ghost function ParseText(p: Primitives, codec: CodecRaw, scopes: ScopeCodecRaw, checksum: Checksum, text: Bytes): Result<Opened, GrantTextError> {
    match ScopeOf(scopes, checksum, text)
    case Err(e) => Err(e)
    case Ok(scope) => Open(p, codec, scope)
  }

  // ---------- from text to text ----------

  /** The text of an access gives back what was marshalled. */
  lemma ScopeOfText(scopes: ScopeCodecRaw, checksum: Checksum, satellite: Bytes, m: Macaroon, s: Model, adds: seq<Addition>)
    requires scopes.Lawful() && FourBytes(checksum)
    ensures ScopeOf(scopes, checksum, TextOf(scopes, checksum, satellite, m, s, adds)) ==
            Ok(Scope(satellite, Serialize(m), Export(s, adds)))
  {
    hide CheckEncode, CheckDecode;
    var data := scopes.marshal(Scope(satellite, Serialize(m), Export(s, adds)));
    CheckDecodeIsInverse(checksum, CheckEncode(checksum, data, 0), Payload(data, 0));
  }

  /** The bytes under the text: version 0, the marshalled scope, and the checksum of both. */
  lemma BytesOfText(scopes: ScopeCodecRaw, checksum: Checksum, satellite: Bytes, m: Macaroon, s: Model, adds: seq<Addition>)
    ensures var body := [0] + scopes.marshal(Scope(satellite, Serialize(m), Export(s, adds)));
            Decode(TextOf(scopes, checksum, satellite, m, s, adds)) == body + checksum(body)
  {
    var data := scopes.marshal(Scope(satellite, Serialize(m), Export(s, adds)));
    CheckEncodedBytes(checksum, data, 0);
  }

  /** Which texts are accepted, and as what: exactly the version 0 encodings of a scope with a satellite, a
      readable API key and an importable store, which is then limited to the key. */
  lemma AcceptedText(p: Primitives, codec: CodecRaw, scopes: ScopeCodecRaw, checksum: Checksum, text: Bytes, o: Opened)
    requires FourBytes(checksum)
    ensures ParseText(p, codec, scopes, checksum, text) == Ok(o) <==>
              exists data, scope ::
                && text == CheckEncode(checksum, data, 0) && scopes.unmarshal(data) == Some(scope)
                && scope.satelliteAddr == o.satelliteAddress && o.satelliteAddress != []
                && ParseMacaroon(scope.apiKey) == Ok(o.apiKey)
                && Import(scope.encryptionAccess).Ok?
                && o.store == LimitTo(p, codec, Import(scope.encryptionAccess).value, o.apiKey)
  {
    hide CheckEncode, CheckDecode, ParseMacaroon, Import, LimitTo;
    var decoded := CheckDecode(checksum, text);
    forall data, version
      ensures text == CheckEncode(checksum, data, version) <==> decoded == Ok(Payload(data, version))
    {
      CheckDecodeIsInverse(checksum, text, Payload(data, version));
    }
    if ParseText(p, codec, scopes, checksum, text) == Ok(o) {
      var data := decoded.value.data;
      assert text == CheckEncode(checksum, data, 0) && scopes.unmarshal(data).Some?;
    }
  }

  /** Serializing an access and parsing the text: it succeeds exactly when the API key can be read back.
      For every access that was issued, so after any chain of restrictions, the access that is opened
      has the same satellite and key, encrypts every path and derives every key as the original, and is
      issued again. The entries may be listed in any order. */
  lemma ParsedAccessIsEquivalent(p: Primitives, codec: CodecRaw, scopes: ScopeCodecRaw, checksum: Checksum, tree: KeyTree,
                                 satellite: Bytes, s: Model, flat: Flat, m: Macaroon, adds: seq<Addition>,
                                 bucket: Bytes, path: Bytes)
    returns (flat': Flat)
    requires scopes.Lawful() && FourBytes(checksum) && satellite != []
    requires Issuing(p, codec, tree, s, flat, m) && Lists(adds, flat)
    ensures var parsed := ParseText(p, codec, scopes, checksum, TextOf(scopes, checksum, satellite, m, s, adds));
            && (parsed.Ok? <==> Readable(m))
            && (parsed.Err? ==> parsed.error == MalformedApiKey)
            && (parsed.Ok? ==>
                  && parsed.value.satelliteAddress == satellite && parsed.value.apiKey == m
                  && Issuing(p, codec, tree, parsed.value.store, flat', m)
                  && EncryptPath(p, parsed.value.store, bucket, path, None) == EncryptPath(p, s, bucket, path, None)
                  && DerivePathKey(p, parsed.value.store, bucket, path) == DerivePathKey(p, s, bucket, path))
  {
    hide Issuing, EncryptPath, DerivePathKey, ScopeOf, TextOf, Import, Export, LimitTo, ParseMacaroon, Serialize, Lists,
         Readable;
    ScopeOfText(scopes, checksum, satellite, m, s, adds);
    ReadsBackExactly(m);
    ImportOfIssued(p, codec, tree, s, flat, m, adds);
    flat' := flat;
    if Readable(m) {
      var neutral := LimitToIsNeutral(p, codec, tree, s, flat, m, bucket, path);
      flat' := LimitToKeepsIssuing(p, codec, tree, s, flat, m);
    }
  }

  lemma ImportOfIssued(p: Primitives, codec: CodecRaw, tree: KeyTree, s: Model, flat: Flat, m: Macaroon, adds: seq<Addition>)
    requires Issuing(p, codec, tree, s, flat, m) && Lists(adds, flat)
    ensures Import(Export(s, adds)) == Ok(s)
  {
    hide Represents, Lists, Import, Export, FromTree;
    ImportUndoesExport(s, flat, adds);
  }

  lemma LimitToKeepsIssuing(p: Primitives, codec: CodecRaw, tree: KeyTree, s: Model, flat: Flat, m: Macaroon)
    returns (flat': Flat)
    requires Issuing(p, codec, tree, s, flat, m) && Readable(m)
    ensures Issuing(p, codec, tree, LimitTo(p, codec, s, m), flat', m)
  {
    hide InKeyTree, LookupIn, EncryptPath, DerivePathKey, ParseMacaroon, Serialize, LimitToCaveats, Issued, Readable;
    flat' := flat;
    if Groups(codec, m.caveats).value == [] {
      ReadsBackExactly(m);
      LimitToNothing(p, codec, s, m.caveats);
    } else {
      flat' := LimitToKeepsTheAllowed(p, codec, tree, s, flat, m, [], []);
    }
  }

  /** Restricting keeps a key readable exactly when the marshalled caveat is within the limit. */
  lemma RestrictKeepsReadable(p: Primitives, codec: CodecRaw, m: Macaroon, caveat: Caveat)
    requires Readable(m)
    ensures Readable(Macaroons.Restrict(p, codec, m, caveat)) <==> |codec.marshal(caveat)| <= MAX_LENGTH
  {
    var r := Macaroons.Restrict(p, codec, m, caveat);
    assert r.caveats[|m.caveats|] == codec.marshal(caveat);
    assert forall i :: 0 <= i < |m.caveats| ==> r.caveats[i] == m.caveats[i];
  }

  // ---------- the code ----------

  method SerializeAccess(scopes: ScopeCodecRaw, checksum: Checksum, satellite: Bytes, apiKey: Option<Macaroon>, store: Store?)
    returns (r: Result<Bytes, GrantTextError>)
    requires store != null ==> store.Valid()
    ensures satellite == [] ==> r == Err(MissingSatellite)
    ensures satellite != [] && apiKey.None? ==> r == Err(MissingApiKey)
    ensures satellite != [] && apiKey.Some? && store == null ==> r == Err(MissingEncryptionAccess)
    ensures satellite != [] && apiKey.Some? && store != null ==>
              exists adds :: Lists(adds, store.entries) && |adds| == |store.entries| &&
                             r == Ok(TextOf(scopes, checksum, satellite, apiKey.value, store.Model(), adds))
  {
    if |satellite| == 0 {
      return Err(MissingSatellite);
    } else if apiKey.None? {
      return Err(MissingApiKey);
    } else if store == null {
      return Err(MissingEncryptionAccess);
    }
    hide Represents, Lists, Serialize, CheckEncode, Export;
    var enc := ToProto(store);
    var key := SerializeMacaroon(apiKey.value);
    var text := CheckEncodeIn(checksum, scopes.marshal(Scope(satellite, key, enc)), 0);
    return Ok(text);
  }

  method ParseAccess(p: Primitives, codec: CodecRaw, scopes: ScopeCodecRaw, checksum: Checksum, text: Bytes)
    returns (r: Result<(Bytes, Macaroon), GrantTextError>, store: Store)
    ensures store.Valid() && fresh(store)
    ensures var parsed := ParseText(p, codec, scopes, checksum, text);
            && (parsed.Err? ==> r == Err(parsed.error))
            && (parsed.Ok? ==>
                  && r == Ok((parsed.value.satelliteAddress, parsed.value.apiKey))
                  && store.Model() == parsed.value.store)
  {
    hide Represents, CheckDecode, ParseMacaroon, Import, LimitTo;
    store := new Store();
    var decoded := CheckDecodeIn(checksum, text);
    if decoded.Err? || decoded.value.version != 0 {
      return Err(InvalidFormat), store;
    }
    var scope := scopes.unmarshal(decoded.value.data);
    if scope.None? {
      return Err(UnableToUnmarshal), store;
    }
    if |scope.value.satelliteAddr| == 0 {
      return Err(MissingSatellite), store;
    }
    var apiKey := ParseMacaroonLoop(scope.value.apiKey);
    if apiKey.Err? {
      return Err(MalformedApiKey), store;
    }
    var err, imported := ParseProto(scope.value.encryptionAccess);
    if err.Some? {
      return Err(MalformedEncryptionAccess(err.value)), store;
    }
    store := LimitStoreTo(p, codec, imported, apiKey.value);
    return Ok((scope.value.satelliteAddr, apiKey.value)), store;
  }
}
