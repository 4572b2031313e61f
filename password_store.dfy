/**
 * The credential vault of the browser's password manager: one persisted record holding
 * the encrypted credentials, a salt, a verification hash and a schema version.
 *
 * The Web Crypto primitives (PBKDF2, AES-256-GCM) are not modelled; they are the fields of
 * a `Primitives` value, and the one fact the proofs rely on, that authenticated decryption
 * under the key used for encryption gives the plaintext back, is the predicate
 * `Primitives.Sound`, a hypothesis of the lemmas that need it. Randomness (salt, IVs, the
 * generator's words), the clock and id generation are inputs.
 */
module PasswordStore {
  import opened Wrappers
  import opened Text
  import Seqs

  newtype byte = x: int | 0 <= x < 256

  const IvLength: nat := 12
  const SaltLength: nat := 32
  const Pbkdf2Iterations: nat := 310000
  const VaultVersion: int := 1

  /** The 96-bit nonce drawn for every encryption. */
  type Iv = s: seq<byte> | |s| == 12 witness seq(12, _ => 0 as byte)

  /** The 256-bit random salt drawn when a vault is created or re-keyed. */
  type SaltBytes = s: seq<byte> | |s| == 32 witness seq(32, _ => 0 as byte)

  // ---------------------------------------------------------------------------
  // Hex encoding

  predicate IsLowerHexDigit(c: char) { IsDigit(c) || 'a' <= c <= 'f' }

  function HexDigit(n: int): (c: char)
    requires 0 <= n < 16
    ensures IsLowerHexDigit(c)
  {
    if n < 10 then ('0' as int + n) as char else ('a' as int + n - 10) as char
  }

  /** `b.toString(16).padStart(2, '0')` */
  function ByteToHex(b: byte): (s: string)
    ensures |s| == 2 && IsLowerHexDigit(s[0]) && IsLowerHexDigit(s[1])
  {
    [HexDigit(b as int / 16), HexDigit(b as int % 16)]
  }

  /** `bytesToHex`: two lower-case hex digits per byte, most significant first. */
  function BytesToHex(bytes: seq<byte>): (hex: string)
    ensures |hex| == 2 * |bytes|
    ensures forall i :: 0 <= i < |hex| ==> IsLowerHexDigit(hex[i])
  {
    if bytes == [] then "" else ByteToHex(bytes[0]) + BytesToHex(bytes[1..])
  }

  lemma {:induction false} BytesToHexConcat(a: seq<byte>, b: seq<byte>)
    ensures BytesToHex(a + b) == BytesToHex(a) + BytesToHex(b)
  {
    if a != [] {
      assert (a + b)[1..] == a[1..] + b;
      BytesToHexConcat(a[1..], b);
    } else {
      assert a + b == b;
    }
  }

  /** The value of one digit for `parseInt(…, 16)`, which accepts both cases. */
  function HexValue(c: char): (v: Option<int>)
    ensures v.Some? ==> 0 <= v.value < 16
  {
    if IsDigit(c) then Some(c as int - '0' as int)
    else if 'a' <= c <= 'f' then Some(c as int - 'a' as int + 10)
    else if 'A' <= c <= 'F' then Some(c as int - 'A' as int + 10)
    else None
  }

  /** The white space `parseInt` skips before the digits. */
  predicate IsJsWhiteSpace(c: char) {
    var n := c as int;
    (9 <= n <= 13) || n == 0x20 || n == 0xA0 || n == 0x1680 || (0x2000 <= n <= 0x200A)
    || n == 0x2028 || n == 0x2029 || n == 0x202F || n == 0x205F || n == 0x3000 || n == 0xFEFF
  }

  /**
   * What `bytes[k] = parseInt(pair, 16)` stores for a two-character `pair`: the longest
   * hex prefix after optional white space or sign; NaN is stored as 0 and a negative value
   * wraps modulo 256.
   */
  function ParseHexPair(c0: char, c1: char): byte {
    match (HexValue(c0), HexValue(c1))
    case (Some(hi), Some(lo)) => (16 * hi + lo) as byte
    case (Some(hi), None) => hi as byte
    case (None, Some(lo)) =>
      if IsJsWhiteSpace(c0) || c0 == '+' then lo as byte
      else if c0 == '-' then ((256 - lo) % 256) as byte
      else 0
    case (None, None) => 0
  }

  /** The bytes `hexToBytes` produces: one per complete pair; a trailing odd digit is dropped. */
  function HexDecode(hex: string): (bytes: seq<byte>)
    ensures |bytes| == |hex| / 2
  {
    if |hex| < 2 then [] else [ParseHexPair(hex[0], hex[1])] + HexDecode(hex[2..])
  }

  lemma {:induction false} HexDecodeAt(hex: string, k: nat)
    requires k < |hex| / 2
    ensures HexDecode(hex)[k] == ParseHexPair(hex[2 * k], hex[2 * k + 1])
  {
    if k > 0 {
      HexDecodeAt(hex[2..], k - 1);
    }
  }

  /** `hexToBytes`: fills a fresh array pair by pair. */
  method HexToBytes(hex: string) returns (bytes: array<byte>)
    ensures bytes[..] == HexDecode(hex)
  {
    bytes := new byte[|hex| / 2];
    var i := 0;
    while i < |hex|
      invariant i % 2 == 0 && 0 <= i <= |hex| + 1
      invariant forall k :: 0 <= k < bytes.Length && 2 * k < i ==> bytes[k] == HexDecode(hex)[k]
    {
      // a write past the end of a typed array is dropped
      if i / 2 < bytes.Length {
        HexDecodeAt(hex, i / 2);
        bytes[i / 2] := ParseHexPair(hex[i], hex[i + 1]);
      }
      i := i + 2;
    }
  }

  lemma ByteHexRoundTrip(b: byte)
    ensures ParseHexPair(ByteToHex(b)[0], ByteToHex(b)[1]) == b
  {
  }

  /** Decoding what `bytesToHex` produced gives the bytes back. */
  lemma {:induction false} HexRoundTrip(bytes: seq<byte>)
    ensures HexDecode(BytesToHex(bytes)) == bytes
  {
    if bytes != [] {
      var h := ByteToHex(bytes[0]);
      var rest := BytesToHex(bytes[1..]);
      assert (h + rest)[2..] == rest;
      ByteHexRoundTrip(bytes[0]);
      HexRoundTrip(bytes[1..]);
    }
  }

  lemma {:induction false} HexDecodeConcat(a: string, b: string)
    requires |a| % 2 == 0
    ensures HexDecode(a + b) == HexDecode(a) + HexDecode(b)
  {
    if |a| >= 2 {
      assert (a + b)[2..] == a[2..] + b;
      HexDecodeConcat(a[2..], b);
    } else {
      assert a + b == b;
    }
  }

  /**
   * The verification hash decodes `salt + 'verify'`; as 'verify' is not hex it contributes
   * the bytes 0 ("ve"), 0 ("ri") and 15 ("fy"), so the hash is salted differently from the key.
   */
  lemma VerificationSalt(salt: seq<byte>)
    ensures HexDecode(BytesToHex(salt) + "verify") == salt + [0, 0, 15]
    ensures HexDecode(BytesToHex(salt) + "verify") != HexDecode(BytesToHex(salt))
  {
    HexDecodeConcat(BytesToHex(salt), "verify");
    HexRoundTrip(salt);
    HexDecodeVerify();
  }

  lemma HexDecodeVerify()
    ensures HexDecode("verify") == [0, 0, 15]
  {
    assert "verify"[2..] == "rify" && "rify"[2..] == "fy";
  }

  // ---------------------------------------------------------------------------
  // Cryptographic primitives and the ciphertext framing

  /**
   * The Web Crypto operations the vault calls: PBKDF2-SHA-256 (password, salt, iterations;
   * 256 bits out), AES-256-GCM encryption of the UTF-8 text (ciphertext and tag), and
   * authenticated decryption, `None` where the source's call throws.
   */
  datatype Primitives = Primitives(
    pbkdf2: (string, seq<byte>, nat) -> seq<byte>,
    seal: (seq<byte>, Iv, string) -> seq<byte>,
    open: (seq<byte>, seq<byte>, seq<byte>) -> Option<string>)
  {
    /** Decryption under the key and nonce used for encryption gives the plaintext back. */
    ghost predicate Sound() {
      forall key: seq<byte>, iv: Iv, text: string :: open(key, iv, seal(key, iv, text)) == Some(text)
    }
  }

  /** `deriveKey`: PBKDF2 over the master password and the decoded salt. */
  function DeriveKey(crypto: Primitives, masterPassword: string, salt: string): seq<byte> {
    crypto.pbkdf2(masterPassword, HexDecode(salt), Pbkdf2Iterations)
  }

  /** `hashMasterPassword`: PBKDF2 over the password with a suffix, and the salt with a suffix. */
  function HashMasterPassword(crypto: Primitives, masterPassword: string, salt: string): string {
    BytesToHex(crypto.pbkdf2(masterPassword + ":verification", HexDecode(salt + "verify"), Pbkdf2Iterations))
  }

  /** `encrypt`: hex of the nonce followed by ciphertext and tag. */
  function Encrypt(crypto: Primitives, plaintext: string, key: seq<byte>, iv: Iv): (ct: string)
    ensures |ct| >= 2 * IvLength && ct[..2 * IvLength] == BytesToHex(iv)
    ensures HexDecode(ct) == iv + crypto.seal(key, iv, plaintext)
  {
    BytesToHexConcat(iv, crypto.seal(key, iv, plaintext));
    HexRoundTrip(iv + crypto.seal(key, iv, plaintext));
    BytesToHex(iv + crypto.seal(key, iv, plaintext))
  }

  /** `decrypt`: the first 12 bytes are the nonce; a failed decryption yields "". */
  function Decrypt(crypto: Primitives, ciphertext: string, key: seq<byte>): (r: string)
    ensures crypto.Sound() ==> forall iv: Iv, text: string ::
      HexDecode(ciphertext) == iv + crypto.seal(key, iv, text) ==> r == text
  {
    var combined := HexDecode(ciphertext);
    var n := if |combined| < IvLength then |combined| else IvLength;
    assert forall iv: Iv, text: string :: combined == iv + crypto.seal(key, iv, text) ==>
      combined[..n] == iv && combined[n..] == crypto.seal(key, iv, text);
    match crypto.open(key, combined[..n], combined[n..])
    case Some(text) => text
    case None => ""
  }

  lemma DecryptEncrypt(crypto: Primitives, text: string, key: seq<byte>, iv: Iv)
    requires crypto.Sound()
    ensures Decrypt(crypto, Encrypt(crypto, text, key, iv), key) == text
  {
    var combined := iv + crypto.seal(key, iv, text);
    assert combined[..IvLength] == iv && combined[IvLength..] == crypto.seal(key, iv, text);
  }

  // ---------------------------------------------------------------------------
  // Vault records

  datatype Category = Login | Note | Card

  /** A saved secret; `password` and `notes` hold ciphertext in the vault, plaintext once loaded. */
  datatype Credential = Credential(
    id: string, website: string, username: string, password: string, notes: Option<string>,
    category: Category, createdAt: int, updatedAt: int, favicon: Option<string>)

  /** What `saveCredential` is given: a credential without id and timestamps. */
  datatype NewCredential = NewCredential(
    website: string, username: string, password: string, notes: Option<string>,
    category: Category, favicon: Option<string>)

  /**
   * The fields an `updateCredential` call carries; `None` is an absent key. The favicon is
   * optional in the record, so it may be set to `undefined` (`Some(None)`).
   */
  datatype CredentialUpdate = CredentialUpdate(
    website: Option<string>, username: Option<string>, password: Option<string>,
    notes: Option<string>, category: Option<Category>, favicon: Option<Option<string>>)

  datatype Vault = Vault(credentials: seq<Credential>, salt: string, masterPasswordHash: string, version: int)

  /** The truthiness test `x ? … : undefined` applied to optional text. */
  function NonEmpty(o: Option<string>): Option<string> {
    if o.Some? && o.value != "" then o else None
  }

  /** The vault `createVault` stores. */
  function NewVault(crypto: Primitives, masterPassword: string, salt: SaltBytes): (v: Vault)
    ensures v.credentials == [] && v.version == VaultVersion
    ensures HexDecode(v.salt) == salt
    ensures Unlocks(crypto, v, masterPassword)
  {
    HexRoundTrip(salt);
    var saltHex := BytesToHex(salt);
    Vault([], saltHex, HashMasterPassword(crypto, masterPassword, saltHex), VaultVersion)
  }

  /** The test of `verifyMasterPassword` on a stored vault. */
  predicate Unlocks(crypto: Primitives, v: Vault, masterPassword: string) {
    HashMasterPassword(crypto, masterPassword, v.salt) == v.masterPasswordHash
  }

  /** The record `saveCredential` appends: sensitive fields encrypted, empty notes dropped. */
  function SealCredential(crypto: Primitives, key: seq<byte>, c: NewCredential, id: string, now: int,
                          passwordIv: Iv, notesIv: Iv): Credential
  {
    Credential(id, c.website, c.username, Encrypt(crypto, c.password, key, passwordIv),
      if NonEmpty(c.notes).Some? then Some(Encrypt(crypto, c.notes.value, key, notesIv)) else None,
      c.category, now, now, c.favicon)
  }

  /** The record `saveCredential` returns: the stored one with the plaintext put back. */
  function PlainCredential(c: NewCredential, id: string, now: int): (r: Credential)
    ensures r.createdAt == r.updatedAt == now
  {
    Credential(id, c.website, c.username, c.password, c.notes, c.category, now, now, c.favicon)
  }

  /** One record as `loadCredentials` returns it. */
  function OpenCredential(crypto: Primitives, key: seq<byte>, c: Credential): Credential {
    c.(password := if c.password != "" then Decrypt(crypto, c.password, key) else "",
       notes := if NonEmpty(c.notes).Some? then Some(Decrypt(crypto, c.notes.value, key)) else None)
  }

  /** `loadCredentials` on a stored vault. */
  function OpenAll(crypto: Primitives, v: Vault, masterPassword: string): (r: seq<Credential>)
    ensures |r| == |v.credentials|
  {
    var key := DeriveKey(crypto, masterPassword, v.salt);
    seq(|v.credentials|, i requires 0 <= i < |v.credentials| => OpenCredential(crypto, key, v.credentials[i]))
  }

  /** `findIndex(c => c.id === id)` */
  function FindCredential(creds: seq<Credential>, id: string): (r: Option<nat>)
    ensures r.Some? ==> r.value < |creds| && creds[r.value].id == id
    ensures r.Some? ==> forall j :: 0 <= j < r.value ==> creds[j].id != id
    ensures r.None? <==> forall j :: 0 <= j < |creds| ==> creds[j].id != id
  {
    if creds == [] then None
    else if creds[0].id == id then Some(0)
    else match FindCredential(creds[1..], id)
      case None => None
      case Some(k) => Some(k + 1)
  }

  /** The stored record after `updateCredential`. */
  function UpdateSealed(crypto: Primitives, key: seq<byte>, c: Credential, u: CredentialUpdate, now: int,
                        passwordIv: Iv, notesIv: Iv): Credential
  {
    Credential(c.id, u.website.GetOr(c.website), u.username.GetOr(c.username),
      if NonEmpty(u.password).Some? then Encrypt(crypto, u.password.value, key, passwordIv) else c.password,
      match u.notes
        case None => c.notes
        case Some(n) => if n != "" then Some(Encrypt(crypto, n, key, notesIv)) else None,
      u.category.GetOr(c.category), c.createdAt, now, u.favicon.GetOr(c.favicon))
  }

  /** The same update as the owner sees it on the loaded (plaintext) record. */
  function UpdatePlain(c: Credential, u: CredentialUpdate, now: int): Credential {
    Credential(c.id, u.website.GetOr(c.website), u.username.GetOr(c.username),
      if NonEmpty(u.password).Some? then u.password.value else c.password,
      if u.notes.Some? then NonEmpty(u.notes) else c.notes,
      u.category.GetOr(c.category), c.createdAt, now, u.favicon.GetOr(c.favicon))
  }

  /** `credentials.filter(c => c.id !== id)` */
  function WithoutId(creds: seq<Credential>, id: string): (r: seq<Credential>)
    ensures forall c :: c in r <==> c in creds && c.id != id
  {
    Seqs.Filter(creds, (c: Credential) => c.id != id)
  }

  /** Re-encryption of the loaded records under a new key; record `i` draws nonces `2i` and `2i+1`. */
  function ResealAll(crypto: Primitives, key: seq<byte>, plain: seq<Credential>, nonce: nat -> Iv): (r: seq<Credential>)
    ensures |r| == |plain|
  {
    seq(|plain|, i requires 0 <= i < |plain| => Reseal(crypto, key, plain[i], nonce(2 * i), nonce(2 * i + 1)))
  }

  /** One loaded record encrypted again: password under the first nonce, non-empty notes under the second. */
  function Reseal(crypto: Primitives, key: seq<byte>, c: Credential, passwordIv: Iv, notesIv: Iv): Credential {
    c.(password := Encrypt(crypto, c.password, key, passwordIv),
       notes := if NonEmpty(c.notes).Some? then Some(Encrypt(crypto, c.notes.value, key, notesIv)) else None)
  }

  /** Opening a resealed record under the same key gives it back, with empty notes dropped. */
  lemma OpenReseal(crypto: Primitives, key: seq<byte>, c: Credential, passwordIv: Iv, notesIv: Iv)
    requires crypto.Sound()
    ensures OpenCredential(crypto, key, Reseal(crypto, key, c, passwordIv, notesIv)) == c.(notes := NonEmpty(c.notes))
  {
    DecryptEncrypt(crypto, c.password, key, passwordIv);
    if NonEmpty(c.notes).Some? {
      DecryptEncrypt(crypto, c.notes.value, key, notesIv);
    }
  }

  /** The vault `changeMasterPassword` writes: fresh salt and hash, every record re-encrypted. */
  function Rekeyed(crypto: Primitives, v: Vault, oldPassword: string, newPassword: string,
                   salt: SaltBytes, nonce: nat -> Iv): (r: Vault)
    ensures |r.credentials| == |v.credentials| && r.version == VaultVersion
    ensures Unlocks(crypto, r, newPassword)
  {
    var saltHex := BytesToHex(salt);
    var key := DeriveKey(crypto, newPassword, saltHex);
    Vault(ResealAll(crypto, key, OpenAll(crypto, v, oldPassword), nonce), saltHex,
          HashMasterPassword(crypto, newPassword, saltHex), VaultVersion)
  }

  // ---------------------------------------------------------------------------
  // The store

  /** The vault store over one storage slot; `stored` is the persisted record, if any. */
  class VaultStore {
    const crypto: Primitives
    var stored: Option<Vault>

    constructor (crypto: Primitives, stored: Option<Vault>)
      ensures this.crypto == crypto && this.stored == stored
    {
      this.crypto := crypto;
      this.stored := stored;
    }

    /** `vaultExists` */
    function VaultExists(): (r: bool)
      reads this
      ensures r <==> stored.Some?
    {
      stored.Some?
    }

    /** `createVault`: replaces whatever is stored with an empty vault. */
    method CreateVault(masterPassword: string, salt: SaltBytes)
      modifies this
      ensures stored == Some(NewVault(crypto, masterPassword, salt))
      ensures VaultExists() && Unlocks(crypto, stored.value, masterPassword)
    {
      var saltHex := BytesToHex(salt);
      var hash := HashMasterPassword(crypto, masterPassword, saltHex);
      stored := Some(Vault([], saltHex, hash, VaultVersion));
    }

    /** `verifyMasterPassword` */
    method VerifyMasterPassword(masterPassword: string) returns (ok: bool)
      ensures ok <==> stored.Some? && Unlocks(crypto, stored.value, masterPassword)
    {
      if stored.None? {
        return false;
      }
      var vault := stored.value;
      var hash := HashMasterPassword(crypto, masterPassword, vault.salt);
      ok := hash == vault.masterPasswordHash;
    }

    /** `loadCredentials`: every record with its sensitive fields decrypted; [] without a vault. */
    method LoadCredentials(masterPassword: string) returns (creds: seq<Credential>)
      ensures stored.None? ==> creds == []
      ensures stored.Some? ==> creds == OpenAll(crypto, stored.value, masterPassword)
    {
      if stored.None? {
        return [];
      }
      creds := OpenAll(crypto, stored.value, masterPassword);
    }

    /** `saveCredential`: appends the encrypted record and returns it in plaintext. */
    method SaveCredential(masterPassword: string, credential: NewCredential, id: string, now: int,
                          passwordIv: Iv, notesIv: Iv) returns (saved: Option<Credential>)
      modifies this
      ensures old(stored).None? ==> saved == None && stored == None
      ensures old(stored).Some? ==>
        var v := old(stored).value;
        var key := DeriveKey(crypto, masterPassword, v.salt);
        && saved == Some(PlainCredential(credential, id, now))
        && stored == Some(v.(credentials := v.credentials + [SealCredential(crypto, key, credential, id, now, passwordIv, notesIv)]))
    {
      if stored.None? {
        return None;
      }
      var vault := stored.value;
      var key := DeriveKey(crypto, masterPassword, vault.salt);
      var record := Credential(id, credential.website, credential.username,
        Encrypt(crypto, credential.password, key, passwordIv),
        if NonEmpty(credential.notes).Some? then Some(Encrypt(crypto, credential.notes.value, key, notesIv)) else None,
        credential.category, now, now, credential.favicon);
      vault := vault.(credentials := vault.credentials + [record]);
      stored := Some(vault);
      saved := Some(record.(password := credential.password, notes := credential.notes));
    }

    /** `updateCredential`: rewrites the first record with that id; false without vault or record. */
    method UpdateCredential(masterPassword: string, id: string, updates: CredentialUpdate, now: int,
                            passwordIv: Iv, notesIv: Iv) returns (ok: bool)
      modifies this
      ensures ok <==> old(stored).Some? && FindCredential(old(stored).value.credentials, id).Some?
      ensures !ok ==> stored == old(stored)
      ensures ok ==>
        var v := old(stored).value;
        var i := FindCredential(v.credentials, id).value;
        var key := DeriveKey(crypto, masterPassword, v.salt);
        stored == Some(v.(credentials := v.credentials[i := UpdateSealed(crypto, key, v.credentials[i], updates, now, passwordIv, notesIv)]))
    {
      if stored.None? {
        return false;
      }
      var vault := stored.value;
      var key := DeriveKey(crypto, masterPassword, vault.salt);
      var index := FindCredential(vault.credentials, id);
      if index.None? {
        return false;
      }
      var i := index.value;
      var record := UpdateSealed(crypto, key, vault.credentials[i], updates, now, passwordIv, notesIv);
      vault := vault.(credentials := vault.credentials[i := record]);
      stored := Some(vault);
      ok := true;
    }

    /** `deleteCredential`: no password needed; true whenever a vault exists. */
    method DeleteCredential(id: string) returns (ok: bool)
      modifies this
      ensures ok <==> old(stored).Some?
      ensures old(stored).None? ==> stored == None
      ensures old(stored).Some? ==>
        stored == Some(old(stored).value.(credentials := WithoutId(old(stored).value.credentials, id)))
    {
      if stored.None? {
        return false;
      }
      var vault := stored.value;
      vault := vault.(credentials := WithoutId(vault.credentials, id));
      stored := Some(vault);
      ok := true;
    }

    /** `changeMasterPassword`: nothing is written unless the old password verifies. */
    method ChangeMasterPassword(oldPassword: string, newPassword: string, salt: SaltBytes, nonce: nat -> Iv)
      returns (ok: bool)
      modifies this
      ensures ok <==> old(stored).Some? && Unlocks(crypto, old(stored).value, oldPassword)
      ensures !ok ==> stored == old(stored)
      ensures ok ==> stored == Some(Rekeyed(crypto, old(stored).value, oldPassword, newPassword, salt, nonce))
    {
      ok := VerifyMasterPassword(oldPassword);
      if !ok {
        return;
      }
      var credentials := LoadCredentials(oldPassword);
      var saltHex := BytesToHex(salt);
      var hash := HashMasterPassword(crypto, newPassword, saltHex);
      var key := DeriveKey(crypto, newPassword, saltHex);
      var encrypted := ResealAll(crypto, key, credentials, nonce);
      stored := Some(Vault(encrypted, saltHex, hash, VaultVersion));
    }

    /** `deleteVault` */
    method DeleteVault()
      modifies this
      ensures stored == None && !VaultExists()
    {
      stored := None;
    }
  }

  // ---------------------------------------------------------------------------
  // What the store's operations mean for a later load

  /** A saved record loads back as the plaintext that was saved (empty notes read as absent). */
  lemma LoadAfterSave(crypto: Primitives, v: Vault, masterPassword: string, c: NewCredential, id: string,
                      now: int, passwordIv: Iv, notesIv: Iv)
    requires crypto.Sound()
    ensures var key := DeriveKey(crypto, masterPassword, v.salt);
            var v' := v.(credentials := v.credentials + [SealCredential(crypto, key, c, id, now, passwordIv, notesIv)]);
            OpenAll(crypto, v', masterPassword)
              == OpenAll(crypto, v, masterPassword) + [PlainCredential(c, id, now).(notes := NonEmpty(c.notes))]
  {
    var key := DeriveKey(crypto, masterPassword, v.salt);
    DecryptEncrypt(crypto, c.password, key, passwordIv);
    if NonEmpty(c.notes).Some? {
      DecryptEncrypt(crypto, c.notes.value, key, notesIv);
    }
  }

  /** An updated record loads as the update applied to what it loaded as before. */
  lemma LoadAfterUpdate(crypto: Primitives, key: seq<byte>, c: Credential, u: CredentialUpdate, now: int,
                        passwordIv: Iv, notesIv: Iv)
    requires crypto.Sound()
    ensures OpenCredential(crypto, key, UpdateSealed(crypto, key, c, u, now, passwordIv, notesIv))
            == UpdatePlain(OpenCredential(crypto, key, c), u, now)
  {
    if NonEmpty(u.password).Some? {
      DecryptEncrypt(crypto, u.password.value, key, passwordIv);
    }
    if u.notes.Some? && u.notes.value != "" {
      DecryptEncrypt(crypto, u.notes.value, key, notesIv);
    }
  }

  /**
   * After re-keying, loading with the new password gives what loading with the old one gave
   * before, except that notes which loaded as "" are dropped.
   */
  lemma RekeyPreservesPlaintext(crypto: Primitives, v: Vault, oldPassword: string, newPassword: string,
                                salt: SaltBytes, nonce: nat -> Iv)
    requires crypto.Sound()
    ensures var before := OpenAll(crypto, v, oldPassword);
            var after := OpenAll(crypto, Rekeyed(crypto, v, oldPassword, newPassword, salt, nonce), newPassword);
            |after| == |before| &&
            forall i :: 0 <= i < |before| ==> after[i] == before[i].(notes := NonEmpty(before[i].notes))
  {
    var before := OpenAll(crypto, v, oldPassword);
    var r := Rekeyed(crypto, v, oldPassword, newPassword, salt, nonce);
    var key := DeriveKey(crypto, newPassword, BytesToHex(salt));
    assert r.salt == BytesToHex(salt);
    forall i | 0 <= i < |before|
      ensures OpenAll(crypto, r, newPassword)[i] == before[i].(notes := NonEmpty(before[i].notes))
    {
      assert r.credentials[i] == Reseal(crypto, key, before[i], nonce(2 * i), nonce(2 * i + 1));
      OpenReseal(crypto, key, before[i], nonce(2 * i), nonce(2 * i + 1));
    }
  }

  /** Deleting an id that no record carries leaves the records as they were. */
  lemma DeleteUnknownId(creds: seq<Credential>, id: string)
    requires forall j :: 0 <= j < |creds| ==> creds[j].id != id
    ensures WithoutId(creds, id) == creds
  {
    Seqs.FilterAll(creds, (c: Credential) => c.id != id);
  }

  /** Deletion keeps the other records in order: it distributes over concatenation. */
  lemma DeleteKeepsOrder(a: seq<Credential>, b: seq<Credential>, id: string)
    ensures WithoutId(a + b, id) == WithoutId(a, id) + WithoutId(b, id)
  {
    Seqs.FilterConcat(a, b, (c: Credential) => c.id != id);
  }
}
