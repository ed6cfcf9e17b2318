/** Moving the write credentials of cluster nodes under the primary key: what one run of the
    migration does, when it refuses, and that a second run changes nothing. */
module TokenMigration {
  import opened Text

  const PREFIX := "mrenc:v1:"

  /** A keyring. `seal(key, nonce, value)` is the encoded payload of an encryption and
      `unseal(key, payload)` the authenticated decryption. */
  datatype Keyring = Keyring(
    primary: string,
    ids: set<string>,
    seal: (string, string, string) -> string,
    unseal: (string, string) -> Option<string>)

  /** What an authenticated cipher and the key ids guarantee. */
  ghost predicate Lawful(k: Keyring) {
    && k.primary in k.ids && k.primary != "" && ':' !in k.primary
    && forall nonce, value {:trigger k.seal(k.primary, nonce, value)} ::
         k.seal(k.primary, nonce, value) != "" && k.unseal(k.primary, k.seal(k.primary, nonce, value)) == Some(value)
  }

  // ---------------------------------------------------------------- envelopes

  function Encrypt(k: Keyring, nonce: string, value: string): string {
    if value == "" then "" else PREFIX + (k.primary + (":" + k.seal(k.primary, nonce, value)))
  }

  /** A token, and whether it is under the primary key. */
  datatype Decrypted = Rejected | Token(value: string, current: bool)

  function Decrypt(k: Keyring, value: string): Decrypted {
    if value == "" then Token("", true)
    else if !(PREFIX <= value) then Rejected
    else
      var remainder := TrimPrefix(value, PREFIX);
      if ':' !in remainder then Rejected
      else
        var i := IndexOf(remainder, ':');
        var keyId, encoded := remainder[..i], remainder[i + 1..];
        if keyId == "" || encoded == "" || keyId !in k.ids then Rejected
        else
          match k.unseal(keyId, encoded)
          case None => Rejected
          case Some(token) => Token(token, keyId == k.primary)
  }

  /** What is encrypted is read back, under the primary key. */
  lemma EncryptedIsReadBack(k: Keyring, nonce: string, value: string)
    requires Lawful(k)
    ensures Decrypt(k, Encrypt(k, nonce, value)) == Token(value, true)
    ensures Encrypt(k, nonce, value) == "" <==> value == ""
  {
    if value != "" {
      var sealed := k.seal(k.primary, nonce, value);
      var remainder := k.primary + (":" + sealed);
      assert TrimPrefix(PREFIX + remainder, PREFIX) == remainder;
      IndexOfAppend(k.primary, ':', sealed);
      assert k.primary + [':'] + sealed == remainder;
      assert remainder[|k.primary|] == ':';
    }
  }

  // ---------------------------------------------------------------- rows

  datatype Row = Row(id: int, plaintext: string, ciphertext: string)

  /** Rows without any credential are not looked at. */
  predicate Holds(row: Row) {
    row.plaintext != "" || row.ciphertext != ""
  }

  /** The stored credential can be read and does not contradict itself. */
  predicate Readable(k: Keyring, row: Row) {
    row.ciphertext != "" ==>
      && Decrypt(k, row.ciphertext).Token?
      && (row.plaintext == "" || row.plaintext == Decrypt(k, row.ciphertext).value)
  }

  function TokenOf(k: Keyring, row: Row): string
    requires Readable(k, row)
  {
    if row.ciphertext == "" then row.plaintext else Decrypt(k, row.ciphertext).value
  }

  /** The credential is not yet a ciphertext under the primary key alone. */
  predicate Outdated(k: Keyring, row: Row)
    requires Readable(k, row)
  {
    Holds(row) && !(row.plaintext == "" && row.ciphertext != "" && Decrypt(k, row.ciphertext).current)
  }

  function MigrateRow(k: Keyring, nonce: string, row: Row): Row
    requires Readable(k, row)
  {
    if Outdated(k, row) then Row(row.id, "", Encrypt(k, nonce, TokenOf(k, row))) else row
  }

  /** What fails around the migration. `nonce(i)` is `None` if row `i` cannot be encrypted or
      written. */
  datatype Faults = Faults(loadFails: bool, nonce: int -> Option<string>, commitFails: bool)

  /** Every row can be read, and every one that has to be rewritten can be. */
  predicate Migrates(k: Keyring, rows: seq<Row>, nonce: int -> Option<string>) {
    forall i | 0 <= i < |rows| :: Readable(k, rows[i]) && (Outdated(k, rows[i]) ==> nonce(i).Some?)
  }

  function Migrated(k: Keyring, nonce: Option<string>, row: Row): Row
    requires Readable(k, row)
  {
    MigrateRow(k, if nonce.Some? then nonce.value else "", row)
  }

  /** `migrateClusterMutationTokens` over the rows, in one transaction: `ok` is false when the
      run fails, and then nothing is written. */
  method MigrateClusterMutationTokens(keyring: Option<Keyring>, rows: seq<Row>, faults: Faults)
      returns (ok: bool, after: seq<Row>)
    ensures ok <==>
            && !faults.loadFails
            && ((forall i | 0 <= i < |rows| :: !Holds(rows[i])) ||
                (keyring.Some? && Migrates(keyring.value, rows, faults.nonce) && !faults.commitFails))
    ensures |after| == |rows|
    ensures !ok ==> after == rows
    ensures ok ==> forall i | 0 <= i < |rows| ::
              after[i] ==
              if keyring.Some? && Readable(keyring.value, rows[i]) then
                Migrated(keyring.value, faults.nonce(i), rows[i])
              else rows[i]
  {
    hide Decrypt, Encrypt;
    if faults.loadFails {
      return false, rows;
    }
    var any := false;
    for i := 0 to |rows|
      invariant any <==> exists j | 0 <= j < i :: Holds(rows[j])
    {
      if rows[i].plaintext != "" || rows[i].ciphertext != "" {
        any := true;
      }
    }
    if !any {
      return true, rows;
    }
    if keyring.None? {
      return false, rows;
    }
    var k := keyring.value;
    after := rows;
    for i := 0 to |rows|
      invariant |after| == |rows| && Migrates(k, rows[..i], faults.nonce)
      invariant forall j | 0 <= j < i :: after[j] == Migrated(k, faults.nonce(j), rows[j])
      invariant forall j | i <= j < |rows| :: after[j] == rows[j]
    {
      assert rows[..i + 1] == rows[..i] + [rows[i]];
      var row := rows[i];
      if row.plaintext != "" || row.ciphertext != "" {
        var plaintext, currentKey := row.plaintext, false;
        if row.ciphertext != "" {
          var decrypted := Decrypt(k, row.ciphertext);
          if decrypted.Rejected? || (plaintext != "" && plaintext != decrypted.value) {
            return false, rows;
          }
          plaintext, currentKey := decrypted.value, decrypted.current;
        }
        if !(row.plaintext == "" && row.ciphertext != "" && currentKey) {
          if faults.nonce(i).None? {
            return false, rows;
          }
          after := after[i := Row(row.id, "", Encrypt(k, faults.nonce(i).value, plaintext))];
        }
      }
    }
    assert rows[..|rows|] == rows;
    if faults.commitFails {
      return false, rows;
    }
    return true, after;
  }

  // ---------------------------------------------------------------- what the migration keeps

  /** A migrated row holds the same credential for the same node, as a ciphertext under the
      primary key and no longer in plain text. */
  lemma MigrationPreservesTokens(k: Keyring, nonce: string, row: Row)
    requires Lawful(k) && Readable(k, row)
    ensures var after := MigrateRow(k, nonce, row);
            && after.id == row.id && Readable(k, after) && TokenOf(k, after) == TokenOf(k, row)
            && after.plaintext == ""
            && Decrypt(k, after.ciphertext) == Token(TokenOf(k, row), true)
  {
    hide Encrypt, Decrypt;
    EncryptedIsReadBack(k, nonce, TokenOf(k, row));
  }

  /** Migrating a migrated row changes nothing, whatever the new nonce. */
  lemma SecondRunChangesNothing(k: Keyring, nonce: string, again: string, row: Row)
    requires Lawful(k) && Readable(k, row)
    ensures Readable(k, MigrateRow(k, nonce, row))
    ensures MigrateRow(k, again, MigrateRow(k, nonce, row)) == MigrateRow(k, nonce, row)
  {
    hide Encrypt, Decrypt;
    MigrationPreservesTokens(k, nonce, row);
    EncryptedIsReadBack(k, nonce, TokenOf(k, row));
  }

  /** A row stops the migration exactly if its ciphertext cannot be read, or reads differently from
      the plain text beside it. */
  lemma UnreadableExactly(k: Keyring, row: Row)
    ensures !Readable(k, row) <==>
            row.ciphertext != "" &&
            (Decrypt(k, row.ciphertext).Rejected? ||
             (row.plaintext != "" && Decrypt(k, row.ciphertext) != Token(row.plaintext,
                 Decrypt(k, row.ciphertext).current)))
  {
    hide Decrypt;
  }

  /** A ciphertext is the version, the id of a key that is held, and what that key opens. */
  lemma EnvelopeExactly(k: Keyring, keyId: string, payload: string, token: string, current: bool)
    requires ':' !in keyId && keyId != ""
    ensures Decrypt(k, "mrenc:v1:" + (keyId + (":" + payload))) == Token(token, current) <==>
            payload != "" && keyId in k.ids && k.unseal(keyId, payload) == Some(token) &&
                current == (keyId == k.primary)
  {
    var remainder := keyId + (":" + payload);
    assert TrimPrefix("mrenc:v1:" + remainder, "mrenc:v1:") == remainder;
    IndexOfAppend(keyId, ':', payload);
    assert keyId + [':'] + payload == remainder;
    assert remainder[|keyId|] == ':';
    assert remainder[..|keyId|] == keyId && remainder[|keyId| + 1..] == payload;
  }
}
