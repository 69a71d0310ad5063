/** Caveats and what they allow (macaroon/apikey.go, Caveat.Allows). */
module Caveats {
  import opened Prelude

  datatype CaveatPath = CaveatPath(bucket: Bytes, encryptedPathPrefix: Bytes)

  /** Times count from Go's zero time, which is 0. */
  datatype Caveat = Caveat(
    disallowReads: bool,
    disallowWrites: bool,
    disallowLists: bool,
    disallowDeletes: bool,
    allowedPaths: seq<CaveatPath>,
    notAfter: Option<int>,
    notBefore: Option<int>,
    nonce: Bytes)

  datatype ActionType =
    | ActionRead
    | ActionWrite
    | ActionList
    | ActionDelete
    | ActionProjectInfo
    | ActionOther(code: int)

  datatype Action = Action(op: ActionType, bucket: Bytes, encryptedPath: Bytes, time: int)

  predicate InWindow(c: Caveat, time: int) {
    && (c.notAfter.Some? ==> time <= c.notAfter.value)
    && (c.notBefore.Some? ==> c.notBefore.value <= time)
  }

  predicate OpAllowed(c: Caveat, op: ActionType) {
    match op
    case ActionRead => !c.disallowReads
    case ActionWrite => !c.disallowWrites
    case ActionList => !c.disallowLists
    case ActionDelete => !c.disallowDeletes
    case ActionProjectInfo => true
    case ActionOther(_) => false
  }

  /** A path is below an allowed path of the same bucket when that is a byte prefix of it. */
  predicate Covers(allowed: CaveatPath, bucket: Bytes, path: Bytes) {
    allowed.bucket == bucket && allowed.encryptedPathPrefix <= path
  }

  predicate CoveredBy(group: seq<CaveatPath>, bucket: Bytes, path: Bytes) {
    exists i :: 0 <= i < |group| && Covers(group[i], bucket, path)
  }

  predicate NamesBucket(group: seq<CaveatPath>, bucket: Bytes) {
    exists i :: 0 <= i < |group| && group[i].bucket == bucket
  }

  /** Reading the metadata of a bucket, or of all buckets when no bucket is named. */
  predicate IsBucketRead(action: Action) {
    action.op == ActionRead && action.encryptedPath == []
  }

  predicate Allows(c: Caveat, action: Action) {
    && InWindow(c, action.time)
    && if IsBucketRead(action)
       then c.allowedPaths == [] || action.bucket == [] || NamesBucket(c.allowedPaths, action.bucket)
       else && OpAllowed(c, action.op)
            && (c.allowedPaths == [] || action.op == ActionProjectInfo ||
                CoveredBy(c.allowedPaths, action.bucket, action.encryptedPath))
  }

  /** The caveat read field by field: its window, the operations it disallows, and its paths. Reading the
      metadata of a bucket is allowed by the window and the names of the buckets alone. */
  lemma AllowsByField(c: Caveat, action: Action)
    ensures var late, early := c.notAfter.Some? && action.time > c.notAfter.value, c.notBefore.Some? && action.time < c.notBefore.value;
            var refused :=
              match action.op
              case ActionRead => c.disallowReads
              case ActionWrite => c.disallowWrites
              case ActionList => c.disallowLists
              case ActionDelete => c.disallowDeletes
              case ActionProjectInfo => false
              case ActionOther(_) => true;
            && (action.op == ActionRead && action.encryptedPath == [] ==>
                  (Allows(c, action) <==>
                     && !late && !early
                     && (c.allowedPaths == [] || action.bucket == [] ||
                         exists i :: 0 <= i < |c.allowedPaths| && c.allowedPaths[i].bucket == action.bucket)))
            && (!(action.op == ActionRead && action.encryptedPath == []) ==>
                  (Allows(c, action) <==>
                     && !late && !early && !refused
                     && (c.allowedPaths == [] || action.op == ActionProjectInfo ||
                         exists i :: 0 <= i < |c.allowedPaths| && c.allowedPaths[i].bucket == action.bucket &&
                                     c.allowedPaths[i].encryptedPathPrefix <= action.encryptedPath)))
  {
  }

  /** Caveat.Allows as the code goes about it. */
  method CheckAllows(c: Caveat, action: Action) returns (ok: bool)
    ensures ok == Allows(c, action)
  {
    if c.notAfter.Some? && action.time > c.notAfter.value {
      return false;
    }
    if c.notBefore.Some? && c.notBefore.value > action.time {
      return false;
    }
    if action.op == ActionRead && |action.encryptedPath| == 0 {
      if |c.allowedPaths| == 0 || |action.bucket| == 0 {
        return true;
      }
      for i := 0 to |c.allowedPaths|
        invariant forall j :: 0 <= j < i ==> c.allowedPaths[j].bucket != action.bucket
      {
        if c.allowedPaths[i].bucket == action.bucket {
          return true;
        }
      }
      return false;
    }
    match action.op {
      case ActionRead =>
        if c.disallowReads {
          return false;
        }
      case ActionWrite =>
        if c.disallowWrites {
          return false;
        }
      case ActionList =>
        if c.disallowLists {
          return false;
        }
      case ActionDelete =>
        if c.disallowDeletes {
          return false;
        }
      case ActionProjectInfo =>
      case ActionOther(_) =>
        return false;
    }
    if |c.allowedPaths| > 0 && action.op != ActionProjectInfo {
      for i := 0 to |c.allowedPaths|
        invariant forall j :: 0 <= j < i ==> !Covers(c.allowedPaths[j], action.bucket, action.encryptedPath)
      {
        if Covers(c.allowedPaths[i], action.bucket, action.encryptedPath) {
          return true;
        }
      }
      return false;
    }
    return true;
  }
}

/** Macaroons and API keys (macaroon/macaroon.go, macaroon/apikey.go). */
module Macaroons {
  import opened Prelude
  import opened Crypto
  import opened Caveats

  datatype Macaroon = Macaroon(head: Bytes, caveats: seq<Bytes>, tail: Bytes)

  /** Marshalling of caveats, which is generated code. */
  datatype CodecRaw = CodecRaw(marshal: Caveat -> Bytes, unmarshal: Bytes -> Option<Caveat>) {
    ghost predicate Lawful() {
      forall c :: unmarshal(marshal(c)) == Some(c)
    }
  }

  datatype CheckError = ErrInvalid | ErrNoTimestamp | ErrFormat | ErrUnauthorized | ErrRevoked

  const ZERO_TIME := 0

  function Sign(p: Primitives, secret: Bytes, data: Bytes): Bytes {
    p.hmacSha256(secret, data)
  }

  function NewUnrestrictedFromParts(p: Primitives, head: Bytes, secret: Bytes): Macaroon {
    Macaroon(head, [], Sign(p, secret, head))
  }

  function AddFirstPartyCaveat(p: Primitives, m: Macaroon, c: Bytes): Macaroon {
    Macaroon(m.head, m.caveats + [c], Sign(p, m.tail, c))
  }

  /** The MAC chain over the caveats, starting from the MAC of the head. */
  function Chain(p: Primitives, start: Bytes, caveats: seq<Bytes>): Bytes
    decreases |caveats|
  {
    if caveats == [] then start
    else Sign(p, Chain(p, start, caveats[..|caveats| - 1]), caveats[|caveats| - 1])
  }

  /** The tail the macaroon must have. */
  function ExpectedTail(p: Primitives, m: Macaroon, secret: Bytes): Bytes {
    Chain(p, Sign(p, secret, m.head), m.caveats)
  }

  predicate Valid(p: Primitives, m: Macaroon, secret: Bytes) {
    ExpectedTail(p, m, secret) == m.tail
  }

  /** The tail of every ancestor, oldest first, up to the macaroon itself. */
  function Tails(p: Primitives, m: Macaroon, secret: Bytes): (tails: seq<Bytes>)
    ensures |tails| == |m.caveats| + 1
    ensures forall i :: 0 <= i < |tails| ==>
              tails[i] == Chain(p, Sign(p, secret, m.head), m.caveats[..i])
  {
    seq(|m.caveats| + 1, i requires 0 <= i <= |m.caveats| =>
      Chain(p, Sign(p, secret, m.head), m.caveats[..i]))
  }

  method ValidateAndTails(p: Primitives, m: Macaroon, secret: Bytes) returns (ok: bool, tails: seq<Bytes>)
    ensures ok == Valid(p, m, secret) && tails == Tails(p, m, secret)
  {
    var start := Sign(p, secret, m.head);
    var tail := start;
    tails := [tail];
    for i := 0 to |m.caveats|
      invariant tail == Chain(p, start, m.caveats[..i])
      invariant |tails| == i + 1
      invariant forall j :: 0 <= j <= i ==> tails[j] == Chain(p, start, m.caveats[..j])
    {
      assert m.caveats[..i + 1][..i] == m.caveats[..i];
      tail := Sign(p, tail, m.caveats[i]);
      tails := tails + [tail];
    }
    assert m.caveats[..|m.caveats|] == m.caveats;
    ok := tail == m.tail;
  }

  /** An API key restricted by caveats, one after the other. */
  function FromParts(p: Primitives, codec: CodecRaw, head: Bytes, secret: Bytes, caveats: seq<Caveat>): Macaroon
    decreases |caveats|
  {
    if caveats == [] then NewUnrestrictedFromParts(p, head, secret)
    else Restrict(p, codec, FromParts(p, codec, head, secret, caveats[..|caveats| - 1]), caveats[|caveats| - 1])
  }

  function Restrict(p: Primitives, codec: CodecRaw, key: Macaroon, caveat: Caveat): Macaroon {
    AddFirstPartyCaveat(p, key, codec.marshal(caveat))
  }

  // ---------- attenuation ----------

  /** A restricted key has its parent's tails and one more. */
  lemma TailsOfRestricted(p: Primitives, m: Macaroon, c: Bytes, secret: Bytes)
    ensures var r := AddFirstPartyCaveat(p, m, c);
            && Tails(p, r, secret) == Tails(p, m, secret) + [ExpectedTail(p, r, secret)]
            && ExpectedTail(p, r, secret) == Sign(p, ExpectedTail(p, m, secret), c)
            && (Valid(p, m, secret) ==> Valid(p, r, secret) && ExpectedTail(p, r, secret) == r.tail)
  {
    var r := AddFirstPartyCaveat(p, m, c);
    assert r.caveats[..|m.caveats|] == m.caveats;
    assert r.caveats[..|r.caveats|] == r.caveats;
    var a, b := Tails(p, r, secret), Tails(p, m, secret);
    forall i | 0 <= i < |b|
      ensures a[i] == b[i]
    {
      assert r.caveats[..i] == m.caveats[..i];
    }
  }

  /** The key and the text of the MAC that gives tail number i: the secret and the head, and after that the
      tail before and a caveat. */
  function MacKey(p: Primitives, m: Macaroon, secret: Bytes, i: nat): Bytes
    requires i <= |m.caveats|
  {
    if i == 0 then secret else Tails(p, m, secret)[i - 1]
  }

  function MacText(m: Macaroon, i: nat): Bytes
    requires i <= |m.caveats|
  {
    if i == 0 then m.head else m.caveats[i - 1]
  }

  /** Every tail is the MAC of the next part under the tail before it, and the first is the MAC of the head
      under the secret; a macaroon is valid when its own tail is the last of them. */
  lemma TailsAreMacs(p: Primitives, m: Macaroon, secret: Bytes, i: nat)
    requires i <= |m.caveats|
    ensures Tails(p, m, secret)[0] == p.hmacSha256(secret, m.head)
    ensures i < |m.caveats| ==> Tails(p, m, secret)[i + 1] == p.hmacSha256(Tails(p, m, secret)[i], m.caveats[i])
    ensures Tails(p, m, secret)[i] == p.hmacSha256(MacKey(p, m, secret, i), MacText(m, i))
    ensures Valid(p, m, secret) <==> m.tail == Tails(p, m, secret)[|m.caveats|]
  {
    assert m.caveats[..|m.caveats|] == m.caveats;
    if i < |m.caveats| {
      assert m.caveats[..i + 1][..i] == m.caveats[..i];
    }
    if i > 0 {
      assert m.caveats[..i][..i - 1] == m.caveats[..i - 1];
    }
  }

  /** A tail binds the secret, the head and the caveats: when it is valid for two different choices of them
      with equally many caveats, two different inputs of the MAC have the same MAC, at position n. */
  lemma TailBinds(p: Primitives, m: Macaroon, other: Macaroon, secret: Bytes, otherSecret: Bytes) returns (n: nat)
    requires Valid(p, m, secret) && Valid(p, other, otherSecret) && m.tail == other.tail && |m.caveats| == |other.caveats|
    requires secret != otherSecret || m.head != other.head || m.caveats != other.caveats
    ensures n <= |m.caveats|
    ensures MacKey(p, m, secret, n) != MacKey(p, other, otherSecret, n) || MacText(m, n) != MacText(other, n)
    ensures p.hmacSha256(MacKey(p, m, secret, n), MacText(m, n)) ==
            p.hmacSha256(MacKey(p, other, otherSecret, n), MacText(other, n))
  {
    TailsAreMacs(p, m, secret, |m.caveats|);
    TailsAreMacs(p, other, otherSecret, |m.caveats|);
    n := TailBindsFrom(p, m, other, secret, otherSecret, |m.caveats|);
  }

  lemma {:induction false} TailBindsFrom(p: Primitives, m: Macaroon, other: Macaroon, secret: Bytes, otherSecret: Bytes, i: nat)
    returns (n: nat)
    requires i <= |m.caveats| == |other.caveats| && Tails(p, m, secret)[i] == Tails(p, other, otherSecret)[i]
    requires forall k :: i <= k < |m.caveats| ==> m.caveats[k] == other.caveats[k]
    requires secret != otherSecret || m.head != other.head || m.caveats != other.caveats
    ensures n <= |m.caveats|
    ensures MacKey(p, m, secret, n) != MacKey(p, other, otherSecret, n) || MacText(m, n) != MacText(other, n)
    ensures p.hmacSha256(MacKey(p, m, secret, n), MacText(m, n)) ==
            p.hmacSha256(MacKey(p, other, otherSecret, n), MacText(other, n))
    decreases i
  {
    hide Tails;
    TailsAreMacs(p, m, secret, i);
    TailsAreMacs(p, other, otherSecret, i);
    n := i;
    if i > 0 && MacKey(p, m, secret, i) == MacKey(p, other, otherSecret, i) && MacText(m, i) == MacText(other, i) {
      n := TailBindsFrom(p, m, other, secret, otherSecret, i - 1);
    }
  }

  /** A key built from the secret always validates, and carries its caveats in order. */
  lemma {:induction false} FromPartsValid(p: Primitives, codec: CodecRaw, head: Bytes, secret: Bytes, caveats: seq<Caveat>)
    ensures var m := FromParts(p, codec, head, secret, caveats);
            && Valid(p, m, secret)
            && m.head == head && |m.caveats| == |caveats|
            && forall i :: 0 <= i < |caveats| ==> m.caveats[i] == codec.marshal(caveats[i])
    decreases |caveats|
  {
    if caveats != [] {
      FromPartsValid(p, codec, head, secret, caveats[..|caveats| - 1]);
      TailsOfRestricted(p, FromParts(p, codec, head, secret, caveats[..|caveats| - 1]),
                        codec.marshal(caveats[|caveats| - 1]), secret);
    }
  }

  // ---------- Check ----------

  predicate AllAllow(codec: CodecRaw, m: Macaroon, action: Action) {
    forall i :: 0 <= i < |m.caveats| ==>
      codec.unmarshal(m.caveats[i]).Some? && Allows(codec.unmarshal(m.caveats[i]).value, action)
  }

  predicate Revoked(tails: seq<Bytes>, revoked: set<Bytes>) {
    exists i :: 0 <= i < |tails| && tails[i] in revoked
  }

  /** What Check accepts; `revoked` holds the revoked tails. */
  predicate Authorized(p: Primitives, codec: CodecRaw, m: Macaroon, secret: Bytes, action: Action, revoked: set<Bytes>) {
    && Valid(p, m, secret)
    && action.time != ZERO_TIME
    && AllAllow(codec, m, action)
    && !Revoked(Tails(p, m, secret), revoked)
  }

  /** What the first of n caveats that does not let the action through reports. */
  function FirstRefusal(codec: CodecRaw, m: Macaroon, action: Action, n: nat): Option<CheckError>
    requires n <= |m.caveats|
  {
    if n == 0 then None
    else
      var earlier := FirstRefusal(codec, m, action, n - 1);
      if earlier.Some? then earlier
      else if codec.unmarshal(m.caveats[n - 1]).None? then Some(ErrFormat)
      else if !Allows(codec.unmarshal(m.caveats[n - 1]).value, action) then Some(ErrUnauthorized)
      else None
  }

  lemma {:induction false} FirstRefusalStays(codec: CodecRaw, m: Macaroon, action: Action, n: nat)
    requires n <= |m.caveats| && FirstRefusal(codec, m, action, n).Some?
    ensures FirstRefusal(codec, m, action, |m.caveats|) == FirstRefusal(codec, m, action, n)
    decreases |m.caveats| - n
  {
    if n < |m.caveats| {
      FirstRefusalStays(codec, m, action, n + 1);
    }
  }

  method Check(p: Primitives, codec: CodecRaw, m: Macaroon, secret: Bytes, action: Action, revoked: set<Bytes>)
    returns (err: Option<CheckError>)
    ensures err.None? <==> Authorized(p, codec, m, secret, action, revoked)
    ensures err == Some(ErrInvalid) <==> !Valid(p, m, secret)
    ensures err == Some(ErrNoTimestamp) <==> Valid(p, m, secret) && action.time == ZERO_TIME
    ensures Valid(p, m, secret) && action.time != ZERO_TIME ==>
              && (err == Some(ErrFormat) <==> FirstRefusal(codec, m, action, |m.caveats|) == Some(ErrFormat))
              && (err == Some(ErrUnauthorized) <==> FirstRefusal(codec, m, action, |m.caveats|) == Some(ErrUnauthorized))
              && (err == Some(ErrRevoked) <==> AllAllow(codec, m, action) && Revoked(Tails(p, m, secret), revoked))
  {
    hide Allows, Tails, Valid;
    var ok, tails := ValidateAndTails(p, m, secret);
    if !ok {
      return Some(ErrInvalid);
    }
    if action.time == ZERO_TIME {
      return Some(ErrNoTimestamp);
    }
    for i := 0 to |m.caveats|
      invariant FirstRefusal(codec, m, action, i) == None
      invariant forall j :: 0 <= j < i ==>
        codec.unmarshal(m.caveats[j]).Some? && Allows(codec.unmarshal(m.caveats[j]).value, action)
    {
      var cav := codec.unmarshal(m.caveats[i]);
      if cav.None? {
        FirstRefusalStays(codec, m, action, i + 1);
        return Some(ErrFormat);
      }
      var allowed := CheckAllows(cav.value, action);
      if !allowed {
        FirstRefusalStays(codec, m, action, i + 1);
        return Some(ErrUnauthorized);
      }
    }
    for i := 0 to |tails|
      invariant forall j :: 0 <= j < i ==> tails[j] !in revoked
    {
      if tails[i] in revoked {
        return Some(ErrRevoked);
      }
    }
    return None;
  }

  /** Restricting a valid key takes away exactly what the new caveat and the revocation of the new
      tail take away. A key whose parent is not valid passes only when two different MAC keys give
      the same MAC for the caveat. */
  lemma RestrictIsExact(p: Primitives, codec: CodecRaw, m: Macaroon, caveat: Caveat, secret: Bytes, action: Action, revoked: set<Bytes>)
    requires codec.Lawful()
    ensures var r := Restrict(p, codec, m, caveat);
            Authorized(p, codec, r, secret, action, revoked) <==>
            && Authorized(p, codec, m.(tail := ExpectedTail(p, m, secret)), secret, action, revoked)
            && Allows(caveat, action)
            && r.tail !in revoked
            && (m.tail == ExpectedTail(p, m, secret) ||
                Sign(p, m.tail, codec.marshal(caveat)) == Sign(p, ExpectedTail(p, m, secret), codec.marshal(caveat)))
  {
    var c := codec.marshal(caveat);
    var r, m' := Restrict(p, codec, m, caveat), m.(tail := ExpectedTail(p, m, secret));
    TailsOfRestricted(p, m, c, secret);
    var a, b := Tails(p, r, secret), Tails(p, m', secret);
    assert a == b + [ExpectedTail(p, r, secret)];
    assert forall i :: 0 <= i < |b| ==> a[i] == b[i];
    assert a[|b|] == ExpectedTail(p, r, secret);
    assert forall i :: 0 <= i < |m.caveats| ==> r.caveats[i] == m.caveats[i];
    assert r.caveats[|m.caveats|] == c;
  }

  /** Revoking the tail of any ancestor rejects the key, whatever the action. */
  lemma AncestorRevocation(p: Primitives, codec: CodecRaw, head: Bytes, secret: Bytes, caveats: seq<Caveat>, n: nat,
                           action: Action, revoked: set<Bytes>)
    requires n <= |caveats|
    requires FromParts(p, codec, head, secret, caveats[..n]).tail in revoked
    ensures !Authorized(p, codec, FromParts(p, codec, head, secret, caveats), secret, action, revoked)
  {
    var m, ancestor := FromParts(p, codec, head, secret, caveats), FromParts(p, codec, head, secret, caveats[..n]);
    FromPartsValid(p, codec, head, secret, caveats);
    FromPartsValid(p, codec, head, secret, caveats[..n]);
    assert m.caveats[..n] == ancestor.caveats;
    assert Tails(p, m, secret)[n] == ancestor.tail;
  }

  /** Over a whole chain of Restrict calls from the secret, a key authorizes exactly what every caveat
      allows, unless some ancestor is revoked. */
  lemma AttenuationIsIntersection(p: Primitives, codec: CodecRaw, head: Bytes, secret: Bytes, caveats: seq<Caveat>,
                                  action: Action, revoked: set<Bytes>)
    requires codec.Lawful()
    ensures Authorized(p, codec, FromParts(p, codec, head, secret, caveats), secret, action, revoked) <==>
            && action.time != ZERO_TIME
            && (forall i :: 0 <= i < |caveats| ==> Allows(caveats[i], action))
            && (forall n :: 0 <= n <= |caveats| ==>
                  FromParts(p, codec, head, secret, caveats[..n]).tail !in revoked)
  {
    hide FromParts, Allows;
    var m := FromParts(p, codec, head, secret, caveats);
    FromPartsValid(p, codec, head, secret, caveats);
    forall n | 0 <= n <= |caveats|
      ensures Tails(p, m, secret)[n] == FromParts(p, codec, head, secret, caveats[..n]).tail
    {
      FromPartsValid(p, codec, head, secret, caveats[..n]);
      assert m.caveats[..n] == FromParts(p, codec, head, secret, caveats[..n]).caveats;
    }
    assert forall i :: 0 <= i < |caveats| ==> codec.unmarshal(m.caveats[i]) == Some(caveats[i]);
  }

  // ---------- GetAllowedBuckets ----------

  datatype AllowedBuckets = AllowedBuckets(all: bool, buckets: set<Bytes>)

  function BucketsOf(group: seq<CaveatPath>): (s: set<Bytes>)
    ensures forall b :: b in s <==> NamesBucket(group, b)
  {
    set i | 0 <= i < |group| :: group[i].bucket
  }

  /** A bucket is answered when it is in the set, or when there is no set. */
  predicate Answers(allowed: AllowedBuckets, bucket: Bytes) {
    allowed.all || bucket in allowed.buckets
  }

  /** The first `n` caveats that restrict paths all name the bucket. */
  predicate NamedByAll(codec: CodecRaw, m: Macaroon, bucket: Bytes, n: nat)
    requires n <= |m.caveats|
    requires forall i :: 0 <= i < n ==> codec.unmarshal(m.caveats[i]).Some?
  {
    forall i :: 0 <= i < n ==> LetsThrough(codec.unmarshal(m.caveats[i]).value, bucket)
  }

  predicate LetsThrough(c: Caveat, bucket: Bytes) {
    c.allowedPaths == [] || NamesBucket(c.allowedPaths, bucket)
  }

  /** The loop that deletes the buckets that are not in `keep`. */
  method DeleteOthers(buckets: set<Bytes>, keep: set<Bytes>) returns (kept: set<Bytes>)
    ensures kept == buckets * keep
  {
    kept := buckets;
    var todo := buckets;
    while todo != {}
      invariant todo <= buckets && kept == todo + (buckets - todo) * keep
      decreases todo
    {
      var bucket :| bucket in todo;
      if bucket !in keep {
        kept := kept - {bucket};
      }
      todo := todo - {bucket};
    }
  }

  method GetAllowedBuckets(codec: CodecRaw, m: Macaroon, action: Action)
    returns (r: Result<AllowedBuckets, CheckError>)
    ensures r.Ok? <==> AllAllow(codec, m, action)
    ensures r.Ok? ==> forall b :: Answers(r.value, b) <==> NamedByAll(codec, m, b, |m.caveats|)
  {
    var all := true;
    var buckets: Option<set<Bytes>> := None;
    for i := 0 to |m.caveats|
      invariant forall j :: 0 <= j < i ==>
        codec.unmarshal(m.caveats[j]).Some? && Allows(codec.unmarshal(m.caveats[j]).value, action)
      invariant all <==> buckets.None?
      invariant forall b :: (all || b in buckets.value) <==> NamedByAll(codec, m, b, i)
    {
      var cav := codec.unmarshal(m.caveats[i]);
      if cav.None? {
        return Err(ErrFormat);
      }
      var ok := CheckAllows(cav.value, action);
      if !ok {
        return Err(ErrUnauthorized);
      }
      ghost var wasAll, was := all, buckets;
      var group := cav.value.allowedPaths;
      if |group| != 0 {
        all := false;
        if buckets.None? {
          buckets := Some(BucketsOf(group));
        } else {
          var kept := DeleteOthers(buckets.value, BucketsOf(group));
          buckets := Some(kept);
        }
      }
      forall b
        ensures (all || b in buckets.value) <==> NamedByAll(codec, m, b, i + 1)
      {
        assert (wasAll || b in was.value) <==> NamedByAll(codec, m, b, i);
        assert NamesBucket(group, b) <==> b in BucketsOf(group);
      }
    }
    return Ok(AllowedBuckets(all, if buckets.None? then {} else buckets.value));
  }

  /** For the metadata read that names no bucket, the answer of GetAllowedBuckets is exactly the
      non-empty buckets whose own metadata read every caveat allows. */
  lemma AllowedBucketsAreReadable(codec: CodecRaw, m: Macaroon, action: Action, bucket: Bytes)
    requires IsBucketRead(action) && action.bucket == [] && bucket != []
    requires AllAllow(codec, m, action)
    ensures NamedByAll(codec, m, bucket, |m.caveats|) <==> AllAllow(codec, m, action.(bucket := bucket))
  {
    forall i | 0 <= i < |m.caveats|
      ensures var c := codec.unmarshal(m.caveats[i]).value;
              Allows(c, action.(bucket := bucket)) <==> LetsThrough(c, bucket)
    {
      assert Allows(codec.unmarshal(m.caveats[i]).value, action);
    }
  }
}
