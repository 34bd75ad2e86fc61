/** Public keys and certificate chains: a key's label is verified link by link from a trust anchor. */
module PubKeys {

  import opened Words
  import opened DomainNames
  import opened DomainSpec
  import opened Options

  const RECORD_TYPE_KEY: nat := 46

  /** A key record: the fields every record has, then those of a key. */
  datatype KeyRecord = KeyRecord(owner: DomainName, recordType: nat, recordClass: nat, ttl: nat,
                                 dataLength: nat, size: nat,
                                 flags: nat, protocol: nat, algorithm: nat, key: seq<Byte>)

  datatype PubKey = PubKey(owner: DomainName, record: KeyRecord)

  /** A certificate: what its signature says, and the key it endorses if its object is a key. */
  datatype Cert = Cert(objectType: nat, endorsed: Option<PubKey>,
                       typeCovered: nat, inception: nat, expires: nat, signer: DomainName, bytes: seq<Byte>)

  /** The signature check of the key's public operation over the certificate's bytes. */
  type SignatureCheck = (PubKey, seq<Byte>) -> bool

  /** The data of a key record is four bytes and the key. */
  ghost predicate RecordOk(r: KeyRecord) {
    Measured(r.owner) && r.dataLength == |r.key| + 4 && r.recordType == RECORD_TYPE_KEY
  }

  /** A key made from a record: its label is a copy of the record's owner, and a copied name is parsed again. */
  ghost predicate KeyOk(k: PubKey) {
    RecordOk(k.record) && k.owner == k.record.owner && NullFree(k.owner.name)
  }

  ghost predicate CertOk(c: Cert) {
    && Measured(c.signer)
    && (c.endorsed.Some? ==> KeyOk(c.endorsed.value))
  }

  /** Two records that agree field by field, their owners as far as the left one's text goes. */
  ghost predicate SameRecord(r: KeyRecord, s: KeyRecord) {
    SameAs(r.owner, s.owner) && r == s.(owner := r.owner)
  }

  /** `ZPubKeyRecord::isEqual`: equality of records, unless the left owner has a null. */
  method RecordsEqual(r: KeyRecord, s: KeyRecord) returns (same: bool)
    requires RecordOk(r) && RecordOk(s)
    ensures same <==> SameRecord(r, s)
    ensures NullFree(r.owner.name) ==> (same <==> r == s)
  {
    var owners := Equal(r.owner, s.owner);
    if !(owners && r.recordType == s.recordType && r.recordClass == s.recordClass && r.ttl == s.ttl
         && r.dataLength == s.dataLength && r.size == s.size && s.recordType == RECORD_TYPE_KEY) {
      return false;
    }
    if !(r.flags == s.flags && r.protocol == s.protocol && r.algorithm == s.algorithm) {
      return false;
    }
    var i := 0;
    while i < r.dataLength - 4
      invariant 0 <= i <= |r.key| && r.key[..i] == s.key[..i]
    {
      if r.key[i] != s.key[i] {
        return false;
      }
      i := i + 1;
    }
    assert r.key == s.key;
    same := true;
  }

  /** What `ZCert::verify` asks: right type, in time, signed in the key's name, and a good signature. */
  ghost predicate Verified(check: SignatureCheck, now: nat, c: Cert, key: PubKey) {
    && c.objectType == c.typeCovered && c.inception < now < c.expires
    && SameAs(c.signer, key.owner) && check(key, c.bytes)
  }

  method Verify(check: SignatureCheck, now: nat, c: Cert, key: PubKey) returns (ok: bool)
    requires Measured(c.signer) && Measured(key.owner)
    ensures ok <==> Verified(check, now, c, key)
    ensures ok <==> && c.objectType == c.typeCovered && c.inception < now < c.expires
                    && SameAs(c.signer, key.owner) && check(key, c.bytes)
    ensures ok && NullFree(c.signer.name) ==> c.signer == key.owner
  {
    var sameName := Equal(c.signer, key.owner);
    if !(c.objectType == c.typeCovered && now > c.inception && now < c.expires && sameName) {
      return false;
    }
    ok := check(key, c.bytes);
  }

  // ---------------------------------------------------------------- chains

  /** The key that checks certificate `i`: the anchor, then what the certificate before endorses. */
  ghost function Signer(chain: seq<Cert>, anchor: PubKey, i: nat): PubKey
    requires i <= |chain|
  {
    if i > 0 && chain[i - 1].endorsed.Some? then chain[i - 1].endorsed.value else anchor
  }

  /** A certificate that `key` verifies, and that endorses a key under its name. */
  ghost predicate Endorses(check: SignatureCheck, now: nat, key: PubKey, c: Cert) {
    Verified(check, now, c, key) && c.endorsed.Some? && SuffixOf(c.endorsed.value.owner, key.owner)
  }

  /** One link: endorsed by the key before it. */
  ghost predicate Link(check: SignatureCheck, now: nat, chain: seq<Cert>, anchor: PubKey, i: nat)
    requires i < |chain|
  {
    Endorses(check, now, Signer(chain, anchor, i), chain[i])
  }

  ghost predicate Links(check: SignatureCheck, now: nat, chain: seq<Cert>, anchor: PubKey, n: nat)
    requires n <= |chain|
  {
    forall i :: 0 <= i < n ==> Link(check, now, chain, anchor, i)
  }

  /** The chain reaches the key: its first certificates are links, and the last of those endorses it. */
  ghost predicate Reaches(check: SignatureCheck, now: nat, chain: seq<Cert>, anchor: PubKey, key: PubKey, n: nat) {
    && 0 < n <= |chain| && Links(check, now, chain, anchor, n)
    && SameRecord(key.record, Signer(chain, anchor, n).record)
  }

  /** One turn of `verifyLabel`: the certificate verifies, endorses a key, and that key's name lies under `curKey`'s. */
  method CheckLink(check: SignatureCheck, now: nat, cert: Cert, curKey: PubKey) returns (linked: bool)
    requires CertOk(cert) && Measured(curKey.owner)
    ensures linked <==> Endorses(check, now, curKey, cert)
    ensures linked ==> RecordOk(cert.endorsed.value.record) && Measured(cert.endorsed.value.owner)
  {
    var verified := Verify(check, now, cert, curKey);
    if !verified || cert.endorsed.None? {
      return false;
    }
    var newKey := cert.endorsed.value;
    SuffixNullFree(newKey.owner, curKey.owner);
    var under := Suffix(newKey.owner, curKey.owner);
    linked := under == Accept;
  }

  /** `verifyLabel` holds exactly when some beginning of the chain leads from the anchor to the key. */
  method VerifyLabel(check: SignatureCheck, now: nat, key: PubKey, chain: seq<Cert>, anchor: PubKey)
    returns (ok: bool)
    requires RecordOk(key.record) && Measured(anchor.owner) && forall c :: c in chain ==> CertOk(c)
    ensures ok <==> exists n: nat :: Reaches(check, now, chain, anchor, key, n)
    ensures ok ==> exists n: nat :: Reaches(check, now, chain, anchor, key, n) && Signed(check, now, chain, anchor, n)
    ensures ok && NullFree(key.record.owner.name) ==> Under(LabelsOf(key.record.owner), LabelsOf(anchor.owner))
  {
    var curKey := anchor;
    var i := 0;
    while i < |chain|
      invariant 0 <= i <= |chain| && Links(check, now, chain, anchor, i)
      invariant curKey == Signer(chain, anchor, i) && Measured(curKey.owner)
      invariant forall n: nat :: Reaches(check, now, chain, anchor, key, n) ==> n > i
    {
      var linked := CheckLink(check, now, chain[i], curKey);
      if !linked {
        BrokenLink(check, now, chain, anchor, key, i);
        return false;
      }
      NextLink(check, now, chain, anchor, i);
      curKey := chain[i].endorsed.value;
      i := i + 1;
      var same := RecordsEqual(key.record, curKey.record);
      if same {
        assert Reaches(check, now, chain, anchor, key, i);
        SignedLinks(check, now, chain, anchor, i);
        ChainUnder(check, now, chain, anchor, i);
        return true;
      }
    }
    ok := false;
  }

  /** The first `n` certificates have signatures that the key before each accepts, and are in time. */
  ghost predicate Signed(check: SignatureCheck, now: nat, chain: seq<Cert>, anchor: PubKey, n: nat) {
    n <= |chain| && forall i {:trigger chain[i]} :: 0 <= i < n ==>
      check(Signer(chain, anchor, i), chain[i].bytes) && chain[i].inception < now < chain[i].expires
  }

  lemma SignedLinks(check: SignatureCheck, now: nat, chain: seq<Cert>, anchor: PubKey, n: nat)
    requires n <= |chain| && Links(check, now, chain, anchor, n)
    ensures Signed(check, now, chain, anchor, n)
  {
    forall i | 0 <= i < n
      ensures check(Signer(chain, anchor, i), chain[i].bytes) && chain[i].inception < now < chain[i].expires
    {
      assert Link(check, now, chain, anchor, i);
    }
  }

  lemma BrokenLink(check: SignatureCheck, now: nat, chain: seq<Cert>, anchor: PubKey, key: PubKey, i: nat)
    requires i < |chain| && !Link(check, now, chain, anchor, i)
    ensures forall n: nat :: Reaches(check, now, chain, anchor, key, n) ==> n <= i
  {}

  lemma NextLink(check: SignatureCheck, now: nat, chain: seq<Cert>, anchor: PubKey, i: nat)
    requires i < |chain| && Links(check, now, chain, anchor, i) && Link(check, now, chain, anchor, i)
    ensures Links(check, now, chain, anchor, i + 1) && Signer(chain, anchor, i + 1) == chain[i].endorsed.value
  {}

  /** Along a chain of links names only get longer: the end lies under the anchor's name. */
  lemma {:induction false} ChainUnder(check: SignatureCheck, now: nat, chain: seq<Cert>, anchor: PubKey, n: nat)
    requires n <= |chain| && Links(check, now, chain, anchor, n)
    ensures Under(LabelsOf(Signer(chain, anchor, n).owner), LabelsOf(anchor.owner))
    decreases n
  {
    if n > 0 {
      ChainUnder(check, now, chain, anchor, n - 1);
      assert Link(check, now, chain, anchor, n - 1);
      UnderTransitive(LabelsOf(Signer(chain, anchor, n).owner), LabelsOf(Signer(chain, anchor, n - 1).owner),
                      LabelsOf(anchor.owner));
    }
  }

  /** Whatever chain reaches the key, from whatever anchor, the key's name lies under the anchor's. */
  ghost predicate AlwaysUnder(key: PubKey) {
    forall check: SignatureCheck, now: nat, chain: seq<Cert>, anchor: PubKey, n: nat ::
      Measured(anchor.owner) && (forall c :: c in chain ==> CertOk(c)) && Reaches(check, now, chain, anchor, key, n) ==>
        Under(LabelsOf(key.record.owner), LabelsOf(anchor.owner))
  }

  /** That is so exactly for keys whose name has no null. */
  lemma UnderIffNullFree(key: PubKey)
    requires RecordOk(key.record)
    ensures AlwaysUnder(key) <==> NullFree(key.record.owner.name)
  {
    if NullFree(key.record.owner.name) {
      forall check: SignatureCheck, now: nat, chain: seq<Cert>, anchor: PubKey, n: nat |
        Measured(anchor.owner) && (forall c :: c in chain ==> CertOk(c)) && Reaches(check, now, chain, anchor, key, n)
        ensures Under(LabelsOf(key.record.owner), LabelsOf(anchor.owner))
      {
        assert CertOk(chain[n - 1]) && Link(check, now, chain, anchor, n - 1);
        SameIffNullFree(key.record.owner);
        ChainUnder(check, now, chain, anchor, n);
      }
    } else {
      NotUnder(key);
    }
  }

  /** The bytes with something in place of every null. */
  function Filled(bytes: seq<Byte>): seq<Byte> {
    seq(|bytes|, i requires 0 <= i < |bytes| => if bytes[i] == 0 then 1 else bytes[i])
  }

  /** A key whose name has a null, reached by a certificate that the anchor issues to itself. */
  lemma NotUnder(key: PubKey)
    requires RecordOk(key.record) && !NullFree(key.record.owner.name)
    ensures !AlwaysUnder(key)
  {
    var d := key.record.owner;
    var e := d.(name := Filled(d.name));
    var anchor := PubKey(e, key.record.(owner := e));
    var cert := Cert(0, Some(anchor), 0, 0, 2, e, []);
    var check: SignatureCheck := (k, b) => true;
    NullFreeText(d.name);
    NullFreeText(e.name);
    assert Text(d.name) <= e.name;
    EndsWithIffUnder(Text(d.name), e.name);
    EndsWithIffUnder(e.name, e.name);
    assert Link(check, 1, [cert], anchor, 0);
    assert Reaches(check, 1, [cert], anchor, key, 1);
  }
}
