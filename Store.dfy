/** The encrypted record store of DatabaseManager.py: one SQLite file holding
    the `users` table, kept encrypted with Fernet between operations.

    Foreign code is abstract: Fernet is a pair of functions obeying
    `FernetLaws`, bcrypt a pair obeying `BcryptLaws`, and SQLite's writer an
    `image` function from the table to the bytes of a database file. */
module Store {
  import opened Wrappers

  type Bytes = seq<bv8>

  /** b'SQLite format 3', the first bytes of every SQLite database file. */
  const Header: Bytes := [0x53, 0x51, 0x4C, 0x69, 0x74, 0x65, 0x20, 0x66, 0x6F, 0x72, 0x6D, 0x61, 0x74, 0x20, 0x33]

  /** `data.startswith(b'SQLite format 3')` */
  predicate HasHeader(b: Bytes) {
    |Header| <= |b| && b[..|Header|] == Header
  }

  /** The backing file: missing, or present with its bytes. */
  datatype DbFile = Absent | Present(bytes: Bytes)

  predicate IsPlaintext(f: DbFile) {
    f.Present? && HasHeader(f.bytes)
  }

  /** Fernet under the process key; `decrypt` answers `None` where Fernet
      raises InvalidToken. */
  datatype Cipher = Cipher(encrypt: Bytes -> Bytes, decrypt: Bytes -> Option<Bytes>)

  /** Decryption undoes encryption, and a Fernet token never starts with the
      SQLite header (it is base64 text beginning with "gAAAAA"). */
  ghost predicate FernetLaws(c: Cipher) {
    && (forall p :: c.decrypt(c.encrypt(p)) == Some(p))
    && (forall p :: !HasHeader(c.encrypt(p)))
  }

  /** `bcrypt.hashpw(password, salt)` and `bcrypt.checkpw(password, hash)`. */
  datatype Bcrypt = Bcrypt(hashpw: (string, string) -> string, checkpw: (string, string) -> bool)

  ghost predicate BcryptLaws(b: Bcrypt) {
    forall p, salt :: b.checkpw(p, b.hashpw(p, salt))
  }

  /** Every file SQLite writes is a database file, and different tables
      give different files (the file is what a later SELECT reads back). */
  ghost predicate ImageLaws(image: seq<User> -> Bytes) {
    && (forall t :: HasHeader(image(t)))
    && (forall t, u :: image(t) == image(u) ==> t == u)
  }

  /** A row of `users (id, name, password, feature_vector)`. */
  datatype User = User(id: nat, name: string, password: string, featureVector: string)

  /** A row of `SELECT id, name, feature_vector FROM users`. */
  datatype Listing = Listing(id: nat, name: string, featureVector: string)

  /** A row of `SELECT password, feature_vector FROM users WHERE name = ?`. */
  datatype Credentials = Credentials(password: string, featureVector: string)

  /** InvalidToken from Fernet, or any sqlite3.Error. */
  datatype StoreError = InvalidToken | DatabaseError

  /** Ids strictly increase in table order and never exceed the
      AUTOINCREMENT counter. */
  ghost predicate IdsValid(rows: seq<User>, lastId: nat) {
    && (forall i, j :: 0 <= i < j < |rows| ==> rows[i].id < rows[j].id)
    && (forall i :: 0 <= i < |rows| ==> 0 < rows[i].id <= lastId)
  }

  /** What encrypt_file does to the file. */
  function EncryptedFile(c: Cipher, f: DbFile): DbFile {
    if IsPlaintext(f) then Present(c.encrypt(f.bytes)) else f
  }

  /** What decrypt_file does to the file, or the error it raises. */
  function DecryptedFile(c: Cipher, f: DbFile): Result<DbFile, StoreError> {
    if f.Absent? || HasHeader(f.bytes) then Ok(f)
    else
      match c.decrypt(f.bytes)
      case None => Err(InvalidToken)
      case Some(p) => Ok(Present(p))
  }

  /** `k` calls of decrypt_file in a row, stopping at the first that
      raises. */
  function Decrypted(c: Cipher, f: DbFile, k: nat): Result<DbFile, StoreError>
    decreases k
  {
    if k == 0 then Ok(f)
    else
      match DecryptedFile(c, f)
      case Err(e) => Err(e)
      case Ok(g) => Decrypted(c, g, k - 1)
  }

  /** The file holds the table: whatever database file some number of
      decrypt_file calls exposes is the one SQLite writes for `rows`. */
  ghost predicate Holds(c: Cipher, image: seq<User> -> Bytes, f: DbFile, rows: seq<User>) {
    forall k: nat :: Decrypted(c, f, k).Ok? && IsPlaintext(Decrypted(c, f, k).value) ==>
      Decrypted(c, f, k).value.bytes == image(rows)
  }

  /** A database file, or a missing one, is left alone by decrypt_file, however often. */
  lemma {:induction false} DecryptedStays(c: Cipher, f: DbFile, k: nat)
    requires f.Absent? || IsPlaintext(f)
    ensures Decrypted(c, f, k) == Ok(f)
    decreases k
  {
    if k > 0 {
      DecryptedStays(c, f, k - 1);
    }
  }

  /** The file SQLite has just written holds its table. */
  lemma WrittenHolds(c: Cipher, image: seq<User> -> Bytes, rows: seq<User>)
    requires ImageLaws(image)
    ensures Holds(c, image, Present(image(rows)), rows)
  {
    forall k: nat ensures Decrypted(c, Present(image(rows)), k) == Ok(Present(image(rows))) {
      DecryptedStays(c, Present(image(rows)), k);
    }
  }

  /** decrypt_file never changes which table the file holds. */
  lemma DecryptKeepsHolds(c: Cipher, image: seq<User> -> Bytes, f: DbFile, rows: seq<User>)
    requires Holds(c, image, f, rows) && DecryptedFile(c, f).Ok?
    ensures Holds(c, image, DecryptedFile(c, f).value, rows)
  {
    var g := DecryptedFile(c, f).value;
    forall k: nat | Decrypted(c, g, k).Ok? && IsPlaintext(Decrypted(c, g, k).value)
      ensures Decrypted(c, g, k).value.bytes == image(rows)
    {
      assert Decrypted(c, f, k + 1) == Decrypted(c, g, k);
    }
  }

  /** encrypt_file never changes which table the file holds. */
  lemma EncryptKeepsHolds(c: Cipher, image: seq<User> -> Bytes, f: DbFile, rows: seq<User>)
    requires FernetLaws(c) && Holds(c, image, f, rows)
    ensures Holds(c, image, EncryptedFile(c, f), rows)
  {
    if IsPlaintext(f) {
      assert Decrypted(c, f, 0) == Ok(f);
      var e := EncryptedFile(c, f);
      assert !HasHeader(e.bytes) && c.decrypt(e.bytes) == Some(f.bytes);
      forall k: nat | Decrypted(c, e, k).Ok? && IsPlaintext(Decrypted(c, e, k).value)
        ensures Decrypted(c, e, k).value.bytes == image(rows)
      {
        if k > 0 {
          DecryptedStays(c, f, k - 1);
        }
      }
    }
  }

  /** The file after a failed or successful opening step, and the error. */
  datatype Opening = Opening(file: DbFile, failure: Option<StoreError>)

  /** Opening a transaction: the method's own decrypt_file, then the one
      inside connect; the first that raises stops it. */
  function Open(c: Cipher, f: DbFile): Opening {
    match DecryptedFile(c, f)
    case Err(e) => Opening(f, Some(e))
    case Ok(g) =>
      match DecryptedFile(c, g)
      case Err(e) => Opening(g, Some(e))
      case Ok(h) => Opening(h, None)
  }

  /** A transaction's statements run when opening raised nothing and left a
      database file; otherwise sqlite3 raises. */
  predicate Runs(o: Opening) {
    o.failure.None? && IsPlaintext(o.file)
  }

  /** The index of the first row named `name` (fetchone in rowid order). */
  function FirstNamed(rows: seq<User>, name: string): (r: Option<nat>)
    ensures r.Some? ==> r.value < |rows| && rows[r.value].name == name
    ensures r.Some? ==> forall j :: 0 <= j < r.value ==> rows[j].name != name
    ensures r.None? <==> forall j :: 0 <= j < |rows| ==> rows[j].name != name
  {
    if rows == [] then None
    else if rows[0].name == name then Some(0)
    else
      match FirstNamed(rows[1..], name)
      case None => None
      case Some(k) => Some(k + 1)
  }

  /** The SELECT of user_exists: found exactly when some row has the name,
      and then that first row's hash and vector. */
  function Lookup(rows: seq<User>, name: string): (r: Option<Credentials>)
    ensures r.Some? <==> exists i :: 0 <= i < |rows| && rows[i].name == name
    ensures r.Some? ==>
      exists i :: 0 <= i < |rows| && rows[i].name == name && r.value == Credentials(rows[i].password, rows[i].featureVector)
  {
    match FirstNamed(rows, name)
    case None => None
    case Some(k) => Some(Credentials(rows[k].password, rows[k].featureVector))
  }

  function Listings(rows: seq<User>): seq<Listing> {
    seq(|rows|, i requires 0 <= i < |rows| => Listing(rows[i].id, rows[i].name, rows[i].featureVector))
  }

  /** `UPDATE users SET password = ?, feature_vector = ? WHERE name = ?` */
  function Overwritten(rows: seq<User>, name: string, password: string, featureVector: string): seq<User> {
    seq(|rows|, i requires 0 <= i < |rows| =>
      if rows[i].name == name then rows[i].(password := password, featureVector := featureVector) else rows[i])
  }

  /** The error a read-only transaction (user_exists, get_all_users) raises
      on the file `f`: a failed decryption, no database file, or a failing
      SELECT (`fault`); None when it succeeds. */
  function ReadError(c: Cipher, f: DbFile, fault: bool): (r: Option<StoreError>)
    ensures r.None? <==> Runs(Open(c, f)) && !fault
  {
    var o := Open(c, f);
    if o.failure.Some? then o.failure
    else if !IsPlaintext(o.file) || fault then Some(DatabaseError)
    else None
  }

  /** The file a read-only transaction leaves: encrypted again after a
      success, as opening left it after an error. */
  function FileAfterRead(c: Cipher, f: DbFile, fault: bool): DbFile {
    var o := Open(c, f);
    if ReadError(c, f, fault).None? then EncryptedFile(c, o.file) else o.file
  }

  /** What user_exists returns or raises, for the file before the call. */
  function LookupResult(c: Cipher, f: DbFile, rows: seq<User>, name: string, fault: bool): Result<Option<Credentials>, StoreError> {
    match ReadError(c, f, fault)
    case Some(e) => Err(e)
    case None => Ok(Lookup(rows, name))
  }

  class DatabaseManager {
    const cipher: Cipher
    const bcrypt: Bcrypt
    const image: seq<User> -> Bytes
    var file: DbFile
    var rows: seq<User>
    var lastId: nat

    ghost predicate Valid()
      reads this
    {
      && FernetLaws(cipher) && BcryptLaws(bcrypt) && ImageLaws(image) && IdsValid(rows, lastId)
      && Holds(cipher, image, file, rows)
    }

    /** `DatabaseManager()`: the file found on disk, with the table it holds
        and its AUTOINCREMENT counter; init_db runs when there is no file. */
    constructor (cipher: Cipher, bcrypt: Bcrypt, image: seq<User> -> Bytes, disk: DbFile, table: seq<User>, counter: nat)
      requires FernetLaws(cipher) && BcryptLaws(bcrypt) && ImageLaws(image) && IdsValid(table, counter)
      requires Holds(cipher, image, disk, table)
      ensures Valid()
      ensures this.cipher == cipher && this.bcrypt == bcrypt && this.image == image
      ensures disk.Present? ==> file == disk && rows == table && lastId == counter
      ensures disk.Absent? ==> file == Present(cipher.encrypt(image([]))) && rows == [] && lastId == 0
    {
      this.cipher := cipher;
      this.bcrypt := bcrypt;
      this.image := image;
      file := disk;
      rows := table;
      lastId := counter;
      new;
      if disk.Absent? {
        var _ := InitDb();
      }
    }

    /** encrypt_file: only a present file that starts with the header is
        replaced, by its encryption. */
    method EncryptFile()
      modifies this`file
      ensures file == EncryptedFile(cipher, old(file))
      ensures old(file) != file ==> IsPlaintext(old(file)) && file == Present(cipher.encrypt(old(file).bytes))
      ensures FernetLaws(cipher) && Holds(cipher, image, old(file), rows) ==> Holds(cipher, image, file, rows)
    {
      if FernetLaws(cipher) && Holds(cipher, image, file, rows) {
        EncryptKeepsHolds(cipher, image, file, rows);
      }
      if file.Present? {
        var data := file.bytes;
        if HasHeader(data) {
          file := Present(cipher.encrypt(data));
        }
      }
    }

    /** decrypt_file: nothing on a missing file or one that starts with the
        header; otherwise the decryption, or InvalidToken with the file as
        it was. */
    method DecryptFile() returns (r: Result<Unit, StoreError>)
      modifies this`file
      ensures DecryptedFile(cipher, old(file)).Ok? ==> r == Ok(Unit) && file == DecryptedFile(cipher, old(file)).value
      ensures DecryptedFile(cipher, old(file)).Err? ==> r == Err(InvalidToken) && file == old(file)
      ensures r.Err? <==> old(file).Present? && !HasHeader(old(file).bytes) && cipher.decrypt(old(file).bytes).None?
      ensures Holds(cipher, image, old(file), rows) ==> Holds(cipher, image, file, rows)
    {
      if Holds(cipher, image, file, rows) && DecryptedFile(cipher, file).Ok? {
        DecryptKeepsHolds(cipher, image, file, rows);
      }
      if file.Absent? {
        return Ok(Unit);
      }
      var data := file.bytes;
      if HasHeader(data) {
        return Ok(Unit);
      }
      match cipher.decrypt(data)
      case None =>
        return Err(InvalidToken);
      case Some(p) =>
        file := Present(p);
        return Ok(Unit);
    }

    /** connect: decrypt_file, then open the connection. */
    method Connect() returns (r: Result<Unit, StoreError>)
      modifies this`file
      ensures DecryptedFile(cipher, old(file)).Ok? ==> r == Ok(Unit) && file == DecryptedFile(cipher, old(file)).value
      ensures DecryptedFile(cipher, old(file)).Err? ==> r == Err(InvalidToken) && file == old(file)
      ensures Holds(cipher, image, old(file), rows) ==> Holds(cipher, image, file, rows)
    {
      r := DecryptFile();
    }

    /** init_db: `CREATE TABLE IF NOT EXISTS users ...`, then encrypt_file.
        A missing file becomes a database with an empty table. */
    method InitDb() returns (r: Result<Unit, StoreError>)
      requires Valid()
      modifies this
      ensures Valid()
      ensures old(file).Absent? ==> r.Ok? && rows == [] && lastId == 0 && file == Present(cipher.encrypt(image([])))
      ensures old(file).Present? ==> rows == old(rows) && lastId == old(lastId)
      ensures old(file).Present? ==>
        match DecryptedFile(cipher, old(file))
        case Err(e) => r == Err(e) && file == old(file)
        case Ok(g) =>
          if IsPlaintext(g) then r.Ok? && file == Present(cipher.encrypt(g.bytes))
          else r == Err(DatabaseError) && file == g
    {
      var c := Connect();
      if c.Err? {
        return Err(c.error);
      }
      if file.Absent? {
        rows := [];
        lastId := 0;
        file := Present(image(rows));
        WrittenHolds(cipher, image, rows);
      } else if !HasHeader(file.bytes) {
        return Err(DatabaseError);
      }
      EncryptFile();
      return Ok(Unit);
    }

    /** hash_password, with bcrypt's random salt as a parameter; whatever the
        salt, verify_password accepts the password against the hash. */
    function HashPassword(password: string, salt: string): (r: string)
      ensures BcryptLaws(bcrypt) ==> VerifyPassword(r, password)
    {
      bcrypt.hashpw(password, salt)
    }

    /** verify_password(stored, provided) */
    function VerifyPassword(storedPassword: string, providedPassword: string): bool {
      bcrypt.checkpw(providedPassword, storedPassword)
    }

    /** user_exists: the password hash and vector of the first row with this
        name, or None; the table is never changed and a normal return leaves
        the file encrypted. `fault` is a sqlite3 error raised by the SELECT,
        which skips the re-encryption. */
    method UserExists(name: string, fault: bool) returns (r: Result<Option<Credentials>, StoreError>)
      requires Valid()
      modifies this`file
      ensures Valid() && rows == old(rows) && lastId == old(lastId)
      ensures var o := Open(cipher, old(file));
        if o.failure.Some? then r == Err(o.failure.value) && file == o.file
        else if !IsPlaintext(o.file) || fault then r == Err(DatabaseError) && file == o.file
        else r == Ok(Lookup(rows, name)) && file == Present(cipher.encrypt(o.file.bytes))
      ensures r.Ok? ==> file.Present? && !HasHeader(file.bytes)
      ensures r == LookupResult(cipher, old(file), rows, name, fault)
      ensures file == FileAfterRead(cipher, old(file), fault)
    {
      var d := DecryptFile();
      if d.Err? {
        return Err(d.error);
      }
      var c := Connect();
      if c.Err? {
        return Err(c.error);
      }
      if !IsPlaintext(file) || fault {
        return Err(DatabaseError);
      }
      var result := Lookup(rows, name);
      EncryptFile();
      return Ok(result);
    }

    /** register_user: hash the password, open the file, then UPDATE every
        row with this name (overwrite) or INSERT a row with the next id, and
        encrypt again. An error returns false without encrypting the file. */
    method RegisterUser(name: string, password: string, featureVector: string, overwrite: bool, salt: string, fault: bool)
      returns (ok: bool)
      requires Valid()
      modifies this
      ensures Valid()
      ensures var o := Open(cipher, old(file));
        ok <==> Runs(o) && !fault
      ensures !ok ==> rows == old(rows) && lastId == old(lastId) && file == Open(cipher, old(file)).file
      ensures ok ==> file == Present(cipher.encrypt(image(rows)))
      ensures ok && !overwrite ==>
        && lastId == old(lastId) + 1
        && rows == old(rows) + [User(lastId, name, HashPassword(password, salt), featureVector)]
      ensures ok && overwrite ==>
        rows == Overwritten(old(rows), name, HashPassword(password, salt), featureVector) && lastId == old(lastId)
    {
      var hashed := HashPassword(password, salt);
      var d := DecryptFile();
      if d.Err? {
        return false;
      }
      var c := Connect();
      if c.Err? {
        return false;
      }
      if fault || !IsPlaintext(file) {
        return false;
      }
      if overwrite {
        rows := Overwritten(rows, name, hashed, featureVector);
      } else {
        InsertKeepsIds(rows, lastId, name, hashed, featureVector);
        lastId := lastId + 1;
        rows := rows + [User(lastId, name, hashed, featureVector)];
      }
      file := Present(image(rows));
      WrittenHolds(cipher, image, rows);
      EncryptFile();
      return true;
    }

    /** get_all_users: `(id, name, feature_vector)` of every row, in table
        order; the table is never changed and a normal return leaves the
        file encrypted. `fault` is a sqlite3 error raised by the SELECT. */
    method GetAllUsers(fault: bool) returns (r: Result<seq<Listing>, StoreError>)
      requires Valid()
      modifies this`file
      ensures Valid() && rows == old(rows) && lastId == old(lastId)
      ensures var o := Open(cipher, old(file));
        if o.failure.Some? then r == Err(o.failure.value) && file == o.file
        else if !IsPlaintext(o.file) || fault then r == Err(DatabaseError) && file == o.file
        else r == Ok(Listings(rows)) && file == Present(cipher.encrypt(o.file.bytes))
      ensures r.Ok? ==> file.Present? && !HasHeader(file.bytes)
      ensures ReadError(cipher, old(file), fault).Some? ==> r == Err(ReadError(cipher, old(file), fault).value)
      ensures ReadError(cipher, old(file), fault).None? ==> r == Ok(Listings(rows))
      ensures file == FileAfterRead(cipher, old(file), fault)
    {
      var d := DecryptFile();
      if d.Err? {
        return Err(d.error);
      }
      var c := Connect();
      if c.Err? {
        return Err(c.error);
      }
      if !IsPlaintext(file) || fault {
        return Err(DatabaseError);
      }
      var users := Listings(rows);
      EncryptFile();
      return Ok(users);
    }
  }

  /** An inserted row gets an id larger than every earlier id, and the id
      invariant still holds. */
  lemma InsertKeepsIds(rows: seq<User>, lastId: nat, name: string, password: string, featureVector: string)
    requires IdsValid(rows, lastId)
    ensures forall i :: 0 <= i < |rows| ==> rows[i].id < lastId + 1
    ensures IdsValid(rows + [User(lastId + 1, name, password, featureVector)], lastId + 1)
  {
  }

  /** Round trip: decrypt_file after encrypt_file restores a database file
      (or a missing one) byte for byte. */
  lemma EncryptThenDecrypt(c: Cipher, f: DbFile)
    requires FernetLaws(c)
    requires f.Absent? || IsPlaintext(f)
    ensures DecryptedFile(c, EncryptedFile(c, f)) == Ok(f)
  {
    if f.Present? {
      var p := f.bytes;
      assert !HasHeader(c.encrypt(p)) && c.decrypt(c.encrypt(p)) == Some(p);
    }
  }

  /** A second encrypt_file changes nothing. */
  lemma EncryptIdempotent(c: Cipher, f: DbFile)
    requires FernetLaws(c)
    ensures EncryptedFile(c, EncryptedFile(c, f)) == EncryptedFile(c, f)
  {
    if IsPlaintext(f) {
      var p := f.bytes;
      assert !HasHeader(c.encrypt(p));
    }
  }

  /** encrypt_file leaves no database file readable on disk. */
  lemma EncryptSeals(c: Cipher, f: DbFile)
    requires FernetLaws(c) && IsPlaintext(f)
    ensures EncryptedFile(c, f).Present? && !HasHeader(EncryptedFile(c, f).bytes)
  {
    var p := f.bytes;
    assert !HasHeader(c.encrypt(p));
  }

  /** Once decrypt_file has produced a database file, a second decrypt_file
      (the one inside connect) changes nothing, so opening amounts to one
      decryption. */
  lemma DecryptIdempotent(c: Cipher, f: DbFile)
    requires DecryptedFile(c, f).Ok?
    requires DecryptedFile(c, f).value.Absent? || IsPlaintext(DecryptedFile(c, f).value)
    ensures DecryptedFile(c, DecryptedFile(c, f).value) == DecryptedFile(c, f)
    ensures Open(c, f) == Opening(DecryptedFile(c, f).value, None)
  {
  }

  /** The file a successful transaction leaves behind opens again to the
      same database bytes. */
  lemma SealedReopens(c: Cipher, f: DbFile)
    requires FernetLaws(c) && IsPlaintext(f)
    ensures Open(c, EncryptedFile(c, f)) == Opening(f, None)
    ensures Runs(Open(c, EncryptedFile(c, f)))
  {
    EncryptThenDecrypt(c, f);
    DecryptIdempotent(c, EncryptedFile(c, f));
  }

  /** The laws can be met: a cipher that prefixes the byte 'g' and strips it. */
  lemma FernetLawsSatisfiable()
    ensures FernetLaws(Cipher((p: Bytes) => [0x67 as bv8] + p, (t: Bytes) => if |t| > 0 && t[0] == 0x67 then Some(t[1..]) else None))
  {
    var c := Cipher((p: Bytes) => [0x67 as bv8] + p, (t: Bytes) => if |t| > 0 && t[0] == 0x67 then Some(t[1..]) else None);
    forall p: Bytes ensures c.decrypt(c.encrypt(p)) == Some(p) && !HasHeader(c.encrypt(p)) {
      assert ([0x67] + p)[1..] == p;
      assert c.encrypt(p)[0] == 0x67 != Header[0];
    }
  }

  /** A file sealed by encrypt_file holds exactly the table it was written
      from: no other table can stand beside it in a valid store. */
  lemma SealedHoldsOnlyItsTable(c: Cipher, image: seq<User> -> Bytes, table: seq<User>, rows: seq<User>)
    requires FernetLaws(c) && ImageLaws(image)
    requires Holds(c, image, EncryptedFile(c, Present(image(table))), rows)
    ensures rows == table
  {
    var e := EncryptedFile(c, Present(image(table)));
    assert !HasHeader(e.bytes) && c.decrypt(e.bytes) == Some(image(table));
    assert Decrypted(c, e, 1) == Ok(Present(image(table)));
  }

  /** A unary count: n ones, then a zero. */
  function Unary(n: nat): Bytes {
    if n == 0 then [0] else [1] + Unary(n - 1)
  }

  lemma {:induction false} UnaryPrefixFree(n: nat, m: nat, r1: Bytes, r2: Bytes)
    requires Unary(n) + r1 == Unary(m) + r2
    ensures n == m && r1 == r2
  {
    assert (Unary(n) + r1)[0] == Unary(n)[0] && (Unary(m) + r2)[0] == Unary(m)[0];
    if n > 0 && m > 0 {
      assert (Unary(n) + r1)[1..] == Unary(n - 1) + r1;
      assert (Unary(m) + r2)[1..] == Unary(m - 1) + r2;
      UnaryPrefixFree(n - 1, m - 1, r1, r2);
    } else if n == 0 && m == 0 {
      assert r1 == (Unary(n) + r1)[1..];
      assert r2 == (Unary(m) + r2)[1..];
    }
  }

  /** A string as its code points in unary, each after a 1, ended by a 0. */
  function Text(s: string): Bytes {
    if s == [] then [0] else [1] + (Unary(s[0] as int) + Text(s[1..]))
  }

  lemma {:induction false} TextPrefixFree(a: string, b: string, r1: Bytes, r2: Bytes)
    requires Text(a) + r1 == Text(b) + r2
    ensures a == b && r1 == r2
  {
    assert (Text(a) + r1)[0] == Text(a)[0] && (Text(b) + r2)[0] == Text(b)[0];
    if a != [] && b != [] {
      assert (Text(a) + r1)[1..] == Unary(a[0] as int) + (Text(a[1..]) + r1);
      assert (Text(b) + r2)[1..] == Unary(b[0] as int) + (Text(b[1..]) + r2);
      Regroup(Unary(a[0] as int), Text(a[1..]), r1);
      Regroup(Unary(b[0] as int), Text(b[1..]), r2);
      UnaryPrefixFree(a[0] as int, b[0] as int, Text(a[1..]) + r1, Text(b[1..]) + r2);
      TextPrefixFree(a[1..], b[1..], r1, r2);
      assert a == [a[0]] + a[1..] && b == [b[0]] + b[1..];
    } else if a == [] && b == [] {
      assert r1 == (Text(a) + r1)[1..];
      assert r2 == (Text(b) + r2)[1..];
    }
  }

  function RowBytes(u: User): Bytes {
    Unary(u.id) + (Text(u.name) + (Text(u.password) + Text(u.featureVector)))
  }

  lemma Regroup(a: Bytes, b: Bytes, r: Bytes)
    ensures (a + b) + r == a + (b + r)
  {
  }

  lemma RowPrefixFree(u: User, v: User, r1: Bytes, r2: Bytes)
    requires RowBytes(u) + r1 == RowBytes(v) + r2
    ensures u == v && r1 == r2
  {
    var p1, p2 := Text(u.password) + Text(u.featureVector), Text(v.password) + Text(v.featureVector);
    var n1, n2 := Text(u.name) + p1, Text(v.name) + p2;
    Regroup(Unary(u.id), n1, r1);
    Regroup(Unary(v.id), n2, r2);
    UnaryPrefixFree(u.id, v.id, n1 + r1, n2 + r2);
    Regroup(Text(u.name), p1, r1);
    Regroup(Text(v.name), p2, r2);
    TextPrefixFree(u.name, v.name, p1 + r1, p2 + r2);
    Regroup(Text(u.password), Text(u.featureVector), r1);
    Regroup(Text(v.password), Text(v.featureVector), r2);
    TextPrefixFree(u.password, v.password, Text(u.featureVector) + r1, Text(v.featureVector) + r2);
    TextPrefixFree(u.featureVector, v.featureVector, r1, r2);
  }

  /** A table as its rows, each after a 1, ended by a 0. */
  function TableBytes(t: seq<User>): Bytes {
    if t == [] then [0] else [1] + (RowBytes(t[0]) + TableBytes(t[1..]))
  }

  lemma {:induction false} TablePrefixFree(a: seq<User>, b: seq<User>, r1: Bytes, r2: Bytes)
    requires TableBytes(a) + r1 == TableBytes(b) + r2
    ensures a == b && r1 == r2
  {
    assert (TableBytes(a) + r1)[0] == TableBytes(a)[0] && (TableBytes(b) + r2)[0] == TableBytes(b)[0];
    if a != [] && b != [] {
      var t1, t2 := RowBytes(a[0]) + TableBytes(a[1..]), RowBytes(b[0]) + TableBytes(b[1..]);
      Regroup([1], t1, r1);
      Regroup([1], t2, r2);
      assert t1 + r1 == (TableBytes(a) + r1)[1..];
      assert t2 + r2 == (TableBytes(b) + r2)[1..];
      Regroup(RowBytes(a[0]), TableBytes(a[1..]), r1);
      Regroup(RowBytes(b[0]), TableBytes(b[1..]), r2);
      RowPrefixFree(a[0], b[0], TableBytes(a[1..]) + r1, TableBytes(b[1..]) + r2);
      TablePrefixFree(a[1..], b[1..], r1, r2);
      assert a == [a[0]] + a[1..] && b == [b[0]] + b[1..];
    } else if a == [] && b == [] {
      assert r1 == (TableBytes(a) + r1)[1..];
      assert r2 == (TableBytes(b) + r2)[1..];
    }
  }

  /** The laws assumed of SQLite's writer can be met: the header followed by
      a prefix-free encoding of the rows. */
  lemma ImageLawsSatisfiable()
    ensures ImageLaws((t: seq<User>) => Header + TableBytes(t))
  {
    var image := (t: seq<User>) => Header + TableBytes(t);
    forall t ensures HasHeader(image(t)) {
      assert image(t)[..|Header|] == Header;
    }
    forall t, u | image(t) == image(u) ensures t == u {
      assert image(t)[|Header|..] == TableBytes(t);
      assert image(u)[|Header|..] == TableBytes(u);
      assert TableBytes(t) + [] == TableBytes(u) + [];
      TablePrefixFree(t, u, [], []);
    }
  }

  /** After an INSERT, the name is found; when it was new, user_exists
      returns the new row's hash, which bcrypt accepts for the password. */
  lemma {:induction false} InsertedIsFound(b: Bcrypt, rows: seq<User>, id: nat, name: string, password: string, salt: string, featureVector: string)
    requires BcryptLaws(b)
    ensures var rows' := rows + [User(id, name, b.hashpw(password, salt), featureVector)];
      && Lookup(rows', name).Some?
      && (Lookup(rows, name).None? ==>
            Lookup(rows', name) == Some(Credentials(b.hashpw(password, salt), featureVector))
            && b.checkpw(password, Lookup(rows', name).value.password))
      && (Lookup(rows, name).Some? ==> Lookup(rows', name) == Lookup(rows, name))
  {
    var u := User(id, name, b.hashpw(password, salt), featureVector);
    var rows' := rows + [u];
    assert rows'[|rows|] == u;
    if FirstNamed(rows, name).Some? {
      FirstNamedPrefix(rows, [u], name);
    } else {
      assert forall j :: 0 <= j < |rows| ==> rows'[j] == rows[j];
    }
  }

  lemma FirstNamedPrefix(rows: seq<User>, more: seq<User>, name: string)
    requires FirstNamed(rows, name).Some?
    ensures FirstNamed(rows + more, name) == FirstNamed(rows, name)
  {
    assert forall j :: 0 <= j < |rows| ==> (rows + more)[j] == rows[j];
  }

  /** Tables with the same names row by row find a name at the same row. */
  lemma {:induction false} FirstNamedByNames(a: seq<User>, b: seq<User>, name: string)
    requires |a| == |b|
    requires forall i :: 0 <= i < |a| ==> a[i].name == b[i].name
    ensures FirstNamed(a, name) == FirstNamed(b, name)
  {
    if a != [] {
      FirstNamedByNames(a[1..], b[1..], name);
    }
  }

  /** An UPDATE keeps the row count and every id, rewrites exactly the rows
      with that name, and user_exists then returns the new hash and vector
      (or still None when no row matched). */
  lemma OverwriteEffect(rows: seq<User>, name: string, password: string, featureVector: string)
    ensures var rows' := Overwritten(rows, name, password, featureVector);
      && |rows'| == |rows|
      && (forall i :: 0 <= i < |rows| ==> rows'[i].id == rows[i].id && rows'[i].name == rows[i].name)
      && (forall i :: 0 <= i < |rows| && rows[i].name == name ==>
            rows'[i].password == password && rows'[i].featureVector == featureVector)
      && (forall i :: 0 <= i < |rows| && rows[i].name != name ==> rows'[i] == rows[i])
  {
  }

  lemma OverwriteThenLookup(rows: seq<User>, name: string, password: string, featureVector: string)
    ensures var rows' := Overwritten(rows, name, password, featureVector);
      && FirstNamed(rows', name) == FirstNamed(rows, name)
      && Lookup(rows', name) == if FirstNamed(rows, name).Some? then Some(Credentials(password, featureVector)) else None
  {
    var rows' := Overwritten(rows, name, password, featureVector);
    OverwriteEffect(rows, name, password, featureVector);
    FirstNamedByNames(rows', rows, name);
  }

  /** `name` carries no UNIQUE constraint: the INSERT of register_user on an
      existing name keeps the earlier row and adds a second with the same
      name, and user_exists goes on returning the earlier row, so the new
      password is never the one checked. */
  lemma DuplicateNamesKept(rows: seq<User>, lastId: nat, name: string, password: string, featureVector: string)
    requires Lookup(rows, name).Some?
    ensures var rows' := rows + [User(lastId + 1, name, password, featureVector)];
      && |rows'| == |rows| + 1
      && rows'[FirstNamed(rows, name).value] == rows[FirstNamed(rows, name).value]
      && rows'[FirstNamed(rows, name).value].name == rows'[|rows|].name
      && Lookup(rows', name) == Lookup(rows, name)
  {
    FirstNamedPrefix(rows, [User(lastId + 1, name, password, featureVector)], name);
  }
}
