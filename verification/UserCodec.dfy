/**
 The byte format of the user database (kernel/src/auth/users.rs): counts and uids in
 little-endian order, strings behind a one-byte length.
 */
module UserCodec {
  import opened Bytes
  import opened Errors
  import opened Users

  // ---------- encoding ----------

  function RoleByte(role: Role): byte {
    match role
    case Admin => 0
    case User => 1
    case Guest => 2
  }

  /** A string behind its length; the length is cut to one byte. */
  function EncodeText(s: str): seq<byte> { [|s| % 256] + s }

  function EncodeTail(u: Account): seq<byte> {
    [if u.active then 1 else 0] + (Le64(u.createdAt) + Le64(u.lastLogin))
  }

  function EncodeHead(u: Account): seq<byte> {
    Le16(u.uid) + (EncodeText(u.username) + (u.passwordHash + u.salt))
  }

  function EncodeAccount(u: Account): seq<byte> {
    EncodeHead(u) + ([RoleByte(u.role)] + (EncodeText(u.homeDir) + EncodeTail(u)))
  }

  function EncodeAll(users: Accounts): seq<byte> {
    if users == [] then [] else EncodeAccount(users[0]) + EncodeAll(users[1..])
  }

  function Encode(db: Db): seq<byte> {
    Le16(|db.users| % 0x1_0000) + (Le16(db.nextUid) + EncodeAll(db.users))
  }

  /** `serialize`. */
  method Serialize(db: Db) returns (data: seq<byte>)
    ensures data == Encode(db)
  {
    data := Le16(|db.users| % 0x1_0000);
    data := data + Le16(db.nextUid);
    ghost var head := data;
    assert db.users[0..] == db.users;
    for i := 0 to |db.users|
      invariant data + EncodeAll(db.users[i..]) == Encode(db)
    {
      var u := db.users[i];
      assert db.users[i..][1..] == db.users[i + 1..];
      ghost var rest := EncodeAll(db.users[i + 1..]);
      assert data + (EncodeAccount(u) + rest) == (data + EncodeAccount(u)) + rest;
      data := data + EncodeAccount(u);
    }
    assert db.users[|db.users|..] == [];
    assert data + [] == data;
  }

  // ---------- decoding ----------

  /** A value read, and the cursor after it. */
  datatype Read<+T> = Read(value: T, cursor: nat)

  type Reading<+T> = Result<Read<T>, AuthError>

  function ReadBytes(data: seq<byte>, cursor: nat, len: nat): (r: Reading<seq<byte>>)
    ensures r.Ok? ==> |r.value.value| == len
  {
    if cursor + len <= |data| then Ok(Read(data[cursor..cursor + len], cursor + len)) else Err(SerializationError)
  }

  function ReadU8(data: seq<byte>, cursor: nat): Reading<byte> {
    if cursor < |data| then Ok(Read(data[cursor], cursor + 1)) else Err(SerializationError)
  }

  function ReadU16(data: seq<byte>, cursor: nat): Reading<u16> {
    var b :- ReadBytes(data, cursor, 2);
    WordSizes();
    Ok(Read(FromLittleEndian(b.value), b.cursor))
  }

  function ReadU64(data: seq<byte>, cursor: nat): Reading<u64> {
    var b :- ReadBytes(data, cursor, 8);
    WordSizes();
    Ok(Read(FromLittleEndian(b.value), b.cursor))
  }

  /** A length byte, then that many bytes of text. */
  function ReadText(data: seq<byte>, cursor: nat): (r: Reading<Text>)
    ensures r.Ok? ==> |r.value.value| < 256
  {
    var len :- ReadU8(data, cursor);
    var b :- ReadBytes(data, len.cursor, len.value);
    if ValidUtf8(b.value) then Ok(Read(b.value, b.cursor)) else Err(SerializationError)
  }

  function ReadRole(data: seq<byte>, cursor: nat): Reading<Role> {
    var b :- ReadU8(data, cursor);
    if b.value == 0 then Ok(Read(Admin, b.cursor))
    else if b.value == 1 then Ok(Read(User, b.cursor))
    else if b.value == 2 then Ok(Read(Guest, b.cursor))
    else Err(SerializationError)
  }

  datatype Head = Head(uid: u16, username: Text, passwordHash: Hash, salt: Salt)

  function ReadHead(data: seq<byte>, cursor: nat): (r: Reading<Head>)
    ensures r.Ok? ==> |r.value.value.username| < 256
  {
    var uid :- ReadU16(data, cursor);
    var username :- ReadText(data, uid.cursor);
    var passwordHash :- ReadBytes(data, username.cursor, 32);
    var salt :- ReadBytes(data, passwordHash.cursor, 16);
    Ok(Read(Head(uid.value, username.value, passwordHash.value, salt.value), salt.cursor))
  }

  function ReadAccount(data: seq<byte>, cursor: nat): (r: Reading<Account>)
    ensures r.Ok? ==> Encodable(r.value.value)
  {
    var head :- ReadHead(data, cursor);
    var role :- ReadRole(data, head.cursor);
    var homeDir :- ReadText(data, role.cursor);
    var active :- ReadU8(data, homeDir.cursor);
    var createdAt :- ReadU64(data, active.cursor);
    var lastLogin :- ReadU64(data, createdAt.cursor);
    Ok(Read(Account(head.value.uid, head.value.username, head.value.passwordHash, head.value.salt, role.value,
                    homeDir.value, active.value != 0, createdAt.value, lastLogin.value), lastLogin.cursor))
  }

  /** An account whose strings fit their length bytes. */
  predicate Encodable(u: Account) { |u.username| < 256 && |u.homeDir| < 256 }

  predicate AllEncodable(users: Accounts) { forall i | 0 <= i < |users| :: Encodable(users[i]) }

  function ReadAll(data: seq<byte>, cursor: nat, count: nat): (r: Result<Accounts, AuthError>)
    ensures r.Ok? ==> |r.value| == count && AllEncodable(r.value)
    decreases count
  {
    if count == 0 then Ok([])
    else
      var u :- ReadAccount(data, cursor);
      var rest :- ReadAll(data, u.cursor, count - 1);
      Ok([u.value] + rest)
  }

  function Decode(data: seq<byte>): Result<Db, AuthError> {
    var count :- ReadU16(data, 0);
    var nextUid :- ReadU16(data, count.cursor);
    var users :- ReadAll(data, nextUid.cursor, count.value);
    Ok(Db(users, nextUid.value))
  }

  /** `deserialize`: the loop over the accounts computes `Decode`. */
  method Deserialize(data: seq<byte>) returns (r: Result<Db, AuthError>)
    ensures r == Decode(data)
  {
    hide ReadAccount;
    var count :- ReadU16(data, 0);
    var nextUid :- ReadU16(data, count.cursor);
    var cursor := nextUid.cursor;
    var users: Accounts := [];
    ghost var whole := ReadAll(data, cursor, count.value);
    assert whole.Ok? ==> users + whole.value == whole.value;
    for i := 0 to count.value
      invariant var rest := ReadAll(data, cursor, count.value - i);
                whole == if rest.Ok? then Ok(users + rest.value) else Err(rest.error)
    {
      var u :- ReadAccount(data, cursor);
      ghost var rest := ReadAll(data, u.cursor, count.value - i - 1);
      assert rest.Ok? ==> users + ([u.value] + rest.value) == (users + [u.value]) + rest.value;
      users := users + [u.value];
      cursor := u.cursor;
    }
    assert users + [] == users;
    return Ok(Db(users, nextUid.value));
  }

  // ---------- round trip ----------

  /** The first piece of what lies at the cursor is read back, and the rest follows it. */
  lemma ReadPiece(data: seq<byte>, c: nat, a: seq<byte>, b: seq<byte>)
    requires c <= |data| && data[c..] == a + b
    ensures ReadBytes(data, c, |a|) == Ok(Read(a, c + |a|))
    ensures c + |a| <= |data| && data[c + |a|..] == b
  {
    assert data[c..c + |a|] == data[c..][..|a|];
    assert data[c + |a|..] == data[c..][|a|..];
  }

  lemma ReadByteBack(data: seq<byte>, c: nat, x: byte, b: seq<byte>)
    requires c <= |data| && data[c..] == [x] + b
    ensures ReadU8(data, c) == Ok(Read(x, c + 1)) && c + 1 <= |data| && data[c + 1..] == b
  {
    ReadPiece(data, c, [x], b);
    assert data[c] == data[c..][0];
  }

  lemma ReadTextBack(data: seq<byte>, c: nat, s: Text, b: seq<byte>)
    requires |s| < 256 && c <= |data| && data[c..] == EncodeText(s) + b
    ensures var next := c + 1 + |s|;
            ReadText(data, c) == Ok(Read(s, next)) && next <= |data| && data[next..] == b
  {
    assert EncodeText(s) + b == [|s|] + (s + b);
    ReadByteBack(data, c, |s|, s + b);
    ReadPiece(data, c + 1, s, b);
  }

  lemma ReadRoleBack(data: seq<byte>, c: nat, role: Role, b: seq<byte>)
    requires c <= |data| && data[c..] == [RoleByte(role)] + b
    ensures ReadRole(data, c) == Ok(Read(role, c + 1)) && c + 1 <= |data| && data[c + 1..] == b
  {
    ReadByteBack(data, c, RoleByte(role), b);
  }

  lemma ReadTailBack(data: seq<byte>, c: nat, u: Account, b: seq<byte>)
    requires c <= |data| && data[c..] == EncodeTail(u) + b
    ensures ReadU8(data, c) == Ok(Read(if u.active then 1 else 0, c + 1))
    ensures ReadU64(data, c + 1) == Ok(Read(u.createdAt, c + 9))
    ensures ReadU64(data, c + 9) == Ok(Read(u.lastLogin, c + 17))
    ensures c + 17 <= |data| && data[c + 17..] == b
  {
    var flag: byte := if u.active then 1 else 0;
    var created, last := Le64(u.createdAt), Le64(u.lastLogin);
    assert EncodeTail(u) + b == [flag] + (created + (last + b));
    ReadByteBack(data, c, flag, created + (last + b));
    ReadPiece(data, c + 1, created, last + b);
    ReadPiece(data, c + 9, last, b);
  }

  lemma ReadHeadBack(data: seq<byte>, c: nat, u: Account, b: seq<byte>)
    requires |u.username| < 256 && c <= |data| && data[c..] == EncodeHead(u) + b
    ensures var next := c + |EncodeHead(u)|;
            && ReadHead(data, c) == Ok(Read(Head(u.uid, u.username, u.passwordHash, u.salt), next))
            && next <= |data| && data[next..] == b
  {
    hide Le16, EncodeText, ReadText, ValidUtf8;
    var r2 := u.salt + b;
    var r1 := u.passwordHash + r2;
    var r0 := EncodeText(u.username) + r1;
    assert EncodeHead(u) + b == Le16(u.uid) + r0;
    ReadPiece(data, c, Le16(u.uid), r0);
    TextLength(u.username);
    ReadTextBack(data, c + 2, u.username, r1);
    var c2 := c + 3 + |u.username|;
    ReadPiece(data, c2, u.passwordHash, r2);
    ReadPiece(data, c2 + 32, u.salt, b);
  }

  lemma ReadAccountBack(data: seq<byte>, c: nat, u: Account, b: seq<byte>)
    requires Encodable(u) && c <= |data| && data[c..] == EncodeAccount(u) + b
    ensures var next := c + |EncodeAccount(u)|;
            ReadAccount(data, c) == Ok(Read(u, next)) && next <= |data| && data[next..] == b
  {
    hide EncodeHead, ReadHead, ReadU8, ReadU64, EncodeText, ReadText, EncodeTail, ValidUtf8, ReadRole, RoleByte, EncodeAccount;
    var r2 := EncodeTail(u) + b;
    var r1 := EncodeText(u.homeDir) + r2;
    var r0 := [RoleByte(u.role)] + r1;
    AccountPieces(u, b);
    ReadHeadBack(data, c, u, r0);
    TextLength(u.homeDir);
    TailLength(u);
    var c1 := c + |EncodeHead(u)|;
    ReadRoleBack(data, c1, u.role, r1);
    ReadTextBack(data, c1 + 1, u.homeDir, r2);
    ReadTailBack(data, c1 + 2 + |u.homeDir|, u, b);
  }

  lemma AccountPieces(u: Account, b: seq<byte>)
    ensures EncodeAccount(u) + b ==
            EncodeHead(u) + ([RoleByte(u.role)] + (EncodeText(u.homeDir) + (EncodeTail(u) + b)))
    ensures |EncodeAccount(u)| == |EncodeHead(u)| + 1 + |EncodeText(u.homeDir)| + |EncodeTail(u)|
  {
    hide EncodeHead, EncodeText, EncodeTail, RoleByte;
  }

  lemma TextLength(s: str)
    ensures |EncodeText(s)| == 1 + |s|
  {
  }

  lemma TailLength(u: Account)
    ensures |EncodeTail(u)| == 17
  {
  }

  lemma {:induction false} ReadAllBack(data: seq<byte>, c: nat, users: Accounts)
    requires AllEncodable(users) && c <= |data| && data[c..] == EncodeAll(users)
    ensures ReadAll(data, c, |users|) == Ok(users)
    decreases |users|
  {
    hide ReadAccount, EncodeAccount;
    if users != [] {
      var rest := users[1..];
      assert Encodable(users[0]);
      assert AllEncodable(rest) by {
        assert forall i | 0 <= i < |rest| :: rest[i] == users[i + 1];
      }
      ReadAccountBack(data, c, users[0], EncodeAll(rest));
      ReadAllBack(data, c + |EncodeAccount(users[0])|, rest);
      assert users == [users[0]] + rest;
    }
  }

  /**
   Deserializing a serialized database gives that database back exactly when every name and
   home directory fits its length byte and the accounts fit their count.
   */
  lemma RoundTripExact(db: Db)
    ensures Decode(Encode(db)) == Ok(db) <==> AllEncodable(db.users) && |db.users| < 0x1_0000
  {
    if AllEncodable(db.users) && |db.users| < 0x1_0000 {
      EncodedReadsBack(db);
    }
  }

  lemma EncodedReadsBack(db: Db)
    requires AllEncodable(db.users) && |db.users| < 0x1_0000
    ensures Decode(Encode(db)) == Ok(db)
  {
    hide ReadAll, EncodeAll, AllEncodable;
    var data := Encode(db);
    var count, next, all := Le16(|db.users|), Le16(db.nextUid), EncodeAll(db.users);
    assert data[0..] == count + (next + all);
    ReadPiece(data, 0, count, next + all);
    ReadPiece(data, 2, next, all);
    ReadAllBack(data, 4, db.users);
  }

  lemma {:induction false} FewAccounts(users: Accounts, i: nat)
    requires Sorted(users) && i < |users|
    ensures users[i].uid >= i
  {
    if i > 0 {
      FewAccounts(users, i - 1);
    }
  }

  // ---------- what can be reached is storable ----------

  /** Restored accounts are accounts the database once held, or others within its bounds. */
  predicate FitOps(ops: seq<Op>) {
    forall i | 0 <= i < |ops| && ops[i].Restore? :: Encodable(ops[i].user)
  }

  lemma StepEncodable(db: Db, op: Op)
    requires AllEncodable(db.users) && (op.Restore? ==> Encodable(op.user))
    ensures AllEncodable(Step(db, op).0.users)
  {
    match op
    case Create(_, _, _, _, _, _) =>
      if CreateStep(db, op).1.Ok? {
        PushedEncodable(db.users, NewAccount(db, op));
      }
    case Delete(uid) =>
    case Restore(user) =>
      PushedEncodable(db.users, user);
  }

  lemma PushedEncodable(users: Accounts, u: Account)
    requires AllEncodable(users) && Encodable(u)
    ensures AllEncodable(Pushed(users, u))
  {
    hide Pushed;
    PushedCounts(users, u);
    var s := Pushed(users, u);
    forall i | 0 <= i < |s|
      ensures Encodable(s[i])
    {
      assert s[i] in s;
    }
  }

  lemma {:induction false} RunEncodable(db: Db, ops: seq<Op>)
    requires AllEncodable(db.users) && FitOps(ops)
    ensures AllEncodable(Run(db, ops).users)
    decreases |ops|
  {
    hide Step, AllEncodable;
    if ops != [] {
      StepEncodable(db, ops[0]);
      assert FitOps(ops[1..]) by {
        assert forall i | 0 <= i < |ops[1..]| :: ops[1..][i] == ops[i + 1];
      }
      RunEncodable(Step(db, ops[0]).0, ops[1..]);
    }
  }

  /**
   Every database reached from the default one survives being stored and read back if and
   only if its accounts fit their 16-bit count, as they do while uids are left to hand out.
   */
  lemma ReachableRoundTrip(salt: Salt, passwordHash: Hash, now: u64, ops: seq<Op>)
    requires FitOps(ops)
    ensures var db := Run(DefaultDb(salt, passwordHash, now), ops);
            && (Decode(Encode(db)) == Ok(db) <==> |db.users| < 0x1_0000)
            && (db.nextUid < U16_MAX ==> |db.users| < 0x1_0000)
  {
    hide Encode, Decode, Rooted, Sorted, DefaultDb;
    var start := DefaultDb(salt, passwordHash, now);
    DefaultEncodable(salt, passwordHash, now);
    RunEncodable(start, ops);
    var db := Run(start, ops);
    RoundTripExact(db);
    if db.nextUid < U16_MAX {
      ReachableGood(salt, passwordHash, now, ops);
      FewAccounts(db.users, |db.users| - 1);
    }
  }

  lemma DefaultEncodable(salt: Salt, passwordHash: Hash, now: u64)
    ensures AllEncodable(DefaultDb(salt, passwordHash, now).users)
  {
    AsciiIsUtf8(Ascii("root"));
    var root := NewAccount(EmptyDb(), Create(Ascii("root"), 5, Admin, salt, passwordHash, now));
    PushedEncodable([], root);
  }

  // ---------- exactly what is accepted ----------

  /** An account as it may stand in a file: any flag but 0 means active. */
  function WrittenAccount(u: Account, flag: byte): seq<byte> {
    EncodeHead(u) + ([RoleByte(u.role)] + (EncodeText(u.homeDir) + ([flag] + (Le64(u.createdAt) + Le64(u.lastLogin)))))
  }

  function WrittenAll(users: Accounts, flags: seq<byte>): seq<byte>
    requires |flags| == |users|
  {
    if users == [] then [] else WrittenAccount(users[0], flags[0]) + WrittenAll(users[1..], flags[1..])
  }

  predicate FlagsOf(users: Accounts, flags: seq<byte>) {
    |flags| == |users| && forall i | 0 <= i < |users| :: users[i].active <==> flags[i] != 0
  }

  /** The bytes from `c` to `n` are these. */
  predicate At(data: seq<byte>, c: nat, n: nat, bytes: seq<byte>) {
    c <= n <= |data| && data[c..n] == bytes
  }

  lemma AtThen(data: seq<byte>, a: nat, b: nat, c: nat, x: seq<byte>, y: seq<byte>)
    requires At(data, a, b, x) && At(data, b, c, y)
    ensures At(data, a, c, x + y)
  {
    assert data[a..c] == data[a..b] + data[b..c];
  }

  lemma U8Held(data: seq<byte>, c: nat)
    requires ReadU8(data, c).Ok?
    ensures var r := ReadU8(data, c).value; At(data, c, r.cursor, [r.value])
  {
  }

  lemma U16Held(data: seq<byte>, c: nat)
    requires ReadU16(data, c).Ok?
    ensures var r := ReadU16(data, c).value; At(data, c, r.cursor, Le16(r.value))
  {
    LittleEndianInverse(data[c..c + 2]);
  }

  lemma U64Held(data: seq<byte>, c: nat)
    requires ReadU64(data, c).Ok?
    ensures var r := ReadU64(data, c).value; At(data, c, r.cursor, Le64(r.value))
  {
    LittleEndianInverse(data[c..c + 8]);
  }

  lemma TextHeld(data: seq<byte>, c: nat)
    requires ReadText(data, c).Ok?
    ensures var r := ReadText(data, c).value; At(data, c, r.cursor, EncodeText(r.value))
  {
    hide ValidUtf8;
    var r := ReadText(data, c).value;
    assert data[c..r.cursor] == [data[c]] + data[c + 1..r.cursor];
  }

  lemma RoleHeld(data: seq<byte>, c: nat)
    requires ReadRole(data, c).Ok?
    ensures var r := ReadRole(data, c).value; At(data, c, r.cursor, [RoleByte(r.value)])
  {
  }

  lemma HeadHeld(data: seq<byte>, c: nat, u: Account)
    requires ReadHead(data, c).Ok?
    requires ReadHead(data, c).value.value == Head(u.uid, u.username, u.passwordHash, u.salt)
    ensures At(data, c, ReadHead(data, c).value.cursor, EncodeHead(u))
  {
    hide ReadU16, ReadText, EncodeText, Le16;
    var a := ReadU16(data, c).value.cursor;
    var b := ReadText(data, a).value.cursor;
    U16Held(data, c);
    TextHeld(data, a);
    assert At(data, b, b + 32, u.passwordHash) && At(data, b + 32, b + 48, u.salt);
    AtThen(data, b, b + 32, b + 48, u.passwordHash, u.salt);
    AtThen(data, a, b, b + 48, EncodeText(u.username), u.passwordHash + u.salt);
    AtThen(data, c, a, b + 48, Le16(u.uid), EncodeText(u.username) + (u.passwordHash + u.salt));
  }

  lemma AccountHeld(data: seq<byte>, c: nat) returns (flag: byte)
    requires ReadAccount(data, c).Ok?
    ensures var r := ReadAccount(data, c).value;
            At(data, c, r.cursor, WrittenAccount(r.value, flag)) && (r.value.active <==> flag != 0)
  {
    hide ReadHead, ReadU64, ReadText, ReadRole, EncodeHead, EncodeText, RoleByte, Le64, At;
    var r := ReadAccount(data, c).value;
    var u := r.value;
    var a := ReadHead(data, c).value.cursor;
    var b := ReadRole(data, a).value.cursor;
    var d := ReadText(data, b).value.cursor;
    var e := ReadU8(data, d).value.cursor;
    var f := ReadU64(data, e).value.cursor;
    flag := ReadU8(data, d).value.value;
    HeadHeld(data, c, u);
    RoleHeld(data, a);
    TextHeld(data, b);
    U8Held(data, d);
    U64Held(data, e);
    U64Held(data, f);
    AtThen(data, e, f, r.cursor, Le64(u.createdAt), Le64(u.lastLogin));
    AtThen(data, d, e, r.cursor, [flag], Le64(u.createdAt) + Le64(u.lastLogin));
    AtThen(data, b, d, r.cursor, EncodeText(u.homeDir), [flag] + (Le64(u.createdAt) + Le64(u.lastLogin)));
    AtThen(data, a, b, r.cursor, [RoleByte(u.role)], EncodeText(u.homeDir) + ([flag] + (Le64(u.createdAt) + Le64(u.lastLogin))));
    AtThen(data, c, a, r.cursor, EncodeHead(u),
           [RoleByte(u.role)] + (EncodeText(u.homeDir) + ([flag] + (Le64(u.createdAt) + Le64(u.lastLogin)))));
  }

  lemma {:induction false} AllHeld(data: seq<byte>, c: nat, count: nat) returns (flags: seq<byte>, n: nat)
    requires c <= |data| && ReadAll(data, c, count).Ok?
    ensures FlagsOf(ReadAll(data, c, count).value, flags)
    ensures At(data, c, n, WrittenAll(ReadAll(data, c, count).value, flags))
    decreases count
  {
    hide ReadAccount, WrittenAccount, At;
    if count == 0 {
      flags, n := [], c;
      NothingAt(data, c);
    } else {
      var u := ReadAccount(data, c).value;
      var flag := AccountHeld(data, c);
      AtEnd(data, c, u.cursor, WrittenAccount(u.value, flag));
      var rest, end := AllHeld(data, u.cursor, count - 1);
      flags, n := [flag] + rest, end;
      var users := ReadAll(data, c, count).value;
      assert users[1..] == ReadAll(data, u.cursor, count - 1).value && flags[1..] == rest;
      AtThen(data, c, u.cursor, n, WrittenAccount(u.value, flag), WrittenAll(users[1..], rest));
    }
  }

  lemma NothingAt(data: seq<byte>, c: nat)
    requires c <= |data|
    ensures At(data, c, c, [])
  {
  }

  lemma AtEnd(data: seq<byte>, c: nat, n: nat, bytes: seq<byte>)
    requires At(data, c, n, bytes)
    ensures n <= |data|
  {
  }

  /** Whatever is read was there: a file is accepted only if it starts with the database it gives. */
  lemma DecodedIsThere(data: seq<byte>) returns (flags: seq<byte>, n: nat)
    requires Decode(data).Ok?
    ensures var db := Decode(data).value;
            && FlagsOf(db.users, flags) && |db.users| < 0x1_0000 && n <= |data|
            && data[..n] == Le16(|db.users|) + (Le16(db.nextUid) + WrittenAll(db.users, flags))
  {
    hide ReadAll, WrittenAll, Le16, At;
    var db := Decode(data).value;
    U16Held(data, 0);
    U16Held(data, 2);
    AtEnd(data, 2, 4, Le16(db.nextUid));
    flags, n := AllHeld(data, 4, |db.users|);
    AtThen(data, 2, 4, n, Le16(db.nextUid), WrittenAll(db.users, flags));
    AtThen(data, 0, 2, n, Le16(|db.users|), Le16(db.nextUid) + WrittenAll(db.users, flags));
    FromStart(data, n, Le16(|db.users|) + (Le16(db.nextUid) + WrittenAll(db.users, flags)));
  }

  lemma FromStart(data: seq<byte>, n: nat, bytes: seq<byte>)
    requires At(data, 0, n, bytes)
    ensures n <= |data| && data[..n] == bytes
  {
  }
}
