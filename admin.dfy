/** The security administration protocol: a 16-byte header, fields made of
    a big-endian length (counting the id byte), an id byte and the value,
    a roles field holding length-prefixed role names, and the 8-byte proto
    word in front of every message. Writers fill a byte buffer through an
    advancing position; readers walk a reply block the same way. */
module Admin {
  import opened Wrappers
  import opened ResultCodes

  newtype byte = x: int | 0 <= x < 256

  const NUL: byte := 0

  // Commands
  const AUTHENTICATE: byte := 0
  const CREATE_USER: byte := 1
  const DROP_USER: byte := 2
  const SET_PASSWORD: byte := 3
  const CHANGE_PASSWORD: byte := 4
  const GRANT_ROLES: byte := 5
  const REVOKE_ROLES: byte := 6
  const REPLACE_ROLES: byte := 7
  const CREATE_ROLE: byte := 8
  const QUERY_USERS: byte := 9
  const QUERY_ROLES: byte := 10

  // Field ids
  const USER: byte := 0
  const PASSWORD: byte := 1
  const OLD_PASSWORD: byte := 2
  const CREDENTIAL: byte := 3
  const ROLES: byte := 10
  const PRIVILEGES: byte := 11

  const MSG_VERSION: int := 0
  const MSG_TYPE: int := 2
  const FIELD_HEADER_SIZE: nat := 5
  const HEADER_SIZE: nat := 24
  const HEADER_REMAINING: nat := 16
  const RESULT_CODE: nat := 9
  const DEFAULT_TIMEOUT: int := 60000

  /** Capacity of a user name and of a role name, terminator included
      (AS_USER_SIZE and AS_ROLE_SIZE). */
  const USER_SIZE: nat := 32
  const ROLE_SIZE: nat := 32

  /** The low eight bits, as a (uint8_t) cast keeps them. */
  function Byte(n: int): byte
  {
    (n % 256) as byte
  }

  function Pow256(k: nat): (r: nat)
    ensures r > 0
  {
    if k == 0 then 1 else 256 * Pow256(k - 1)
  }

  /** n in k bytes, most significant first (cf_swap_to_be32/64 stored). */
  function BigEndian(n: nat, k: nat): (r: seq<byte>)
    ensures |r| == k
  {
    if k == 0 then [] else BigEndian(n / 256, k - 1) + [Byte(n)]
  }

  /** The unsigned value of bytes read most significant first. */
  function Decode(bs: seq<byte>): (r: nat)
    ensures r < Pow256(|bs|)
  {
    if |bs| == 0 then 0 else Decode(bs[..|bs| - 1]) * 256 + bs[|bs| - 1] as int
  }

  /** Reading back what was written gives the value, when it fits. */
  lemma {:induction false} DecodeBigEndian(n: nat, k: nat)
    requires n < Pow256(k)
    ensures Decode(BigEndian(n, k)) == n
  {
    if k > 0 {
      var q := n / 256;
      var bs := BigEndian(n, k);
      assert bs[..k - 1] == BigEndian(q, k - 1);
      assert bs[k - 1] as int == n % 256;
      assert q < Pow256(k - 1) by {
        assert n < 256 * Pow256(k - 1);
      }
      DecodeBigEndian(q, k - 1);
      assert Decode(bs) == q * 256 + n % 256;
    }
  }

  /** An unsigned 32-bit value seen as a C int (two's complement). */
  function Int32(u: int): (r: int)
    requires 0 <= u < 0x1_0000_0000
    ensures -0x8000_0000 <= r < 0x8000_0000
  {
    if u < 0x8000_0000 then u else u - 0x1_0000_0000
  }

  // ---------------------------------------------------------------------
  // Wire layouts
  // ---------------------------------------------------------------------

  /** The 16 header bytes after the proto word: all zero but the command
      (byte 2) and the field count (byte 3); byte 1 is where a reply puts
      its result. */
  function HeaderBytes(command: byte, fieldCount: byte): (r: seq<byte>)
    ensures |r| == HEADER_REMAINING
  {
    [0, 0, command, fieldCount] + seq(12, _ => 0)
  }

  /** A field header: the length counting the id byte, big-endian in four
      bytes, then the id. */
  function FieldHeader(id: byte, size: nat): (r: seq<byte>)
    ensures |r| == FIELD_HEADER_SIZE
  {
    BigEndian(size + 1, 4) + [id]
  }

  /** A string field: its header and the string's bytes, without the
      terminator. */
  function FieldString(id: byte, val: seq<byte>): seq<byte>
  {
    FieldHeader(id, |val|) + val
  }

  /** One role in the roles field: its length in one byte, then its bytes. */
  function RoleEntry(role: seq<byte>): seq<byte>
  {
    [Byte(|role|)] + role
  }

  /** The role entries one after the other. */
  function RoleEntries(roles: seq<seq<byte>>): seq<byte>
  {
    if |roles| == 0 then [] else RoleEntries(roles[..|roles| - 1]) + RoleEntry(roles[|roles| - 1])
  }

  /** The value of the roles field: the role count in one byte, then the
      entries. */
  function RolesBody(roles: seq<seq<byte>>): seq<byte>
  {
    [Byte(|roles|)] + RoleEntries(roles)
  }

  /** The roles field, its length covering the count and every entry. */
  function RolesField(roles: seq<seq<byte>>): seq<byte>
  {
    FieldHeader(ROLES, |RolesBody(roles)|) + RolesBody(roles)
  }

  /** The proto word as_send puts in front of a message of len bytes: the
      length after the word in the low 48 bits, the type above it and the
      version in the top byte. */
  function ProtoWord(len: int): (r: nat)
    requires 8 <= len < 8 + 0x1_0000_0000_0000
    ensures r % 0x1_0000_0000_0000 == len - 8
    ensures r / 0x1_0000_0000_0000 % 256 == MSG_TYPE
    ensures r / 0x100_0000_0000_0000 == MSG_VERSION
  {
    (len - 8) + MSG_TYPE * 0x1_0000_0000_0000 + MSG_VERSION * 0x100_0000_0000_0000
  }

  /** A C string has no NUL byte inside. */
  predicate NulFree(val: seq<byte>)
  {
    forall i :: 0 <= i < |val| ==> val[i] != NUL
  }

  // ---------------------------------------------------------------------
  // Writers
  // ---------------------------------------------------------------------

  /** write_header: the 16 header bytes at p; returns the position after
      them. */
  method WriteHeader(a: array<byte>, p: nat, command: byte, fieldCount: byte) returns (q: nat)
    requires p + HEADER_REMAINING <= a.Length
    modifies a
    ensures q == p + HEADER_REMAINING
    ensures a[p..q] == HeaderBytes(command, fieldCount)
    ensures forall i :: 0 <= i < a.Length && !(p <= i < q) ==> a[i] == old(a[i])
  {
    forall i | p <= i < p + HEADER_REMAINING {
      a[i] := 0;
    }
    a[p + 2] := command;
    a[p + 3] := fieldCount;
    q := p + HEADER_REMAINING;
    assert a[p..q] == HeaderBytes(command, fieldCount);
  }

  /** write_field_header: size + 1 big-endian, then the id; returns the
      position after them. */
  method WriteFieldHeader(a: array<byte>, p: nat, id: byte, size: nat) returns (q: nat)
    requires p + FIELD_HEADER_SIZE <= a.Length
    requires size + 1 < 0x8000_0000
    modifies a
    ensures q == p + FIELD_HEADER_SIZE
    ensures a[p..q] == FieldHeader(id, size)
    ensures forall i :: 0 <= i < a.Length && !(p <= i < q) ==> a[i] == old(a[i])
  {
    var word := BigEndian(size + 1, 4);
    a[p] := word[0];
    a[p + 1] := word[1];
    a[p + 2] := word[2];
    a[p + 3] := word[3];
    a[p + 4] := id;
    q := p + FIELD_HEADER_SIZE;
    assert a[p..q] == word + [id];
  }

  /** stpcpy: the string and its terminator at p; returns the position of
      the terminator. */
  method CopyString(a: array<byte>, p: nat, val: seq<byte>) returns (q: nat)
    requires NulFree(val)
    requires p + |val| < a.Length
    modifies a
    ensures q == p + |val|
    ensures a[p..q] == val && a[q] == NUL
    ensures forall i :: 0 <= i < a.Length && !(p <= i <= q) ==> a[i] == old(a[i])
  {
    q := p;
    while q < p + |val|
      invariant p <= q <= p + |val|
      invariant a[p..q] == val[..q - p]
      invariant forall i :: 0 <= i < a.Length && !(p <= i < q) ==> a[i] == old(a[i])
    {
      a[q] := val[q - p];
      q := q + 1;
    }
    a[q] := NUL;
    assert a[p..q] == val[..|val|];
  }

  /** write_field_string: the string after room for the header, then the
      header with the string's length; returns the position after the
      string (where its terminator was written). */
  method WriteFieldString(a: array<byte>, p: nat, id: byte, val: seq<byte>) returns (q: nat)
    requires NulFree(val)
    requires p + FIELD_HEADER_SIZE + |val| < a.Length
    requires |val| + 1 < 0x8000_0000
    modifies a
    ensures q == p + FIELD_HEADER_SIZE + |val|
    ensures a[p..q] == FieldString(id, val) && a[q] == NUL
    ensures forall i :: 0 <= i < a.Length && !(p <= i <= q) ==> a[i] == old(a[i])
  {
    q := CopyString(a, p + FIELD_HEADER_SIZE, val);
    var _ := WriteFieldHeader(a, p, id, q - p - FIELD_HEADER_SIZE);
    assert a[p..q] == a[p..p + FIELD_HEADER_SIZE] + a[p + FIELD_HEADER_SIZE..q];
  }

  /** write_roles: the role count, then each role's length byte and
      bytes, then the field header with the length of all that; returns the
      position after the last role (where its terminator was written). */
  method WriteRoles(a: array<byte>, p: nat, roles: seq<seq<byte>>) returns (q: nat)
    requires forall k :: 0 <= k < |roles| ==> NulFree(roles[k])
    requires p + FIELD_HEADER_SIZE + |RolesBody(roles)| < a.Length
    requires |RolesBody(roles)| + 1 < 0x8000_0000
    modifies a
    ensures q == p + FIELD_HEADER_SIZE + |RolesBody(roles)|
    ensures a[p..q] == RolesField(roles)
    ensures |roles| > 0 ==> a[q] == NUL
    ensures forall i :: 0 <= i < a.Length && !(p <= i <= q) ==> a[i] == old(a[i])
  {
    var start := p + FIELD_HEADER_SIZE;
    q := WriteRolesBody(a, start, roles);
    var _ := WriteFieldHeader(a, p, ROLES, q - start);
    assert a[p..q] == a[p..start] + a[start..q];
  }

  /** The loop of write_roles: the count byte at start, then the entries. */
  method WriteRolesBody(a: array<byte>, start: nat, roles: seq<seq<byte>>) returns (q: nat)
    requires forall k :: 0 <= k < |roles| ==> NulFree(roles[k])
    requires start + |RolesBody(roles)| < a.Length
    modifies a
    ensures q == start + |RolesBody(roles)|
    ensures a[start..q] == RolesBody(roles)
    ensures |roles| > 0 ==> a[q] == NUL
    ensures forall j :: 0 <= j < a.Length && !(start <= j <= q) ==> a[j] == old(a[j])
  {
    a[start] := Byte(|roles|);
    q := start + 1;
    var i := 0;
    while i < |roles|
      invariant 0 <= i <= |roles|
      invariant q == start + 1 + |RoleEntries(roles[..i])| <= start + |RolesBody(roles)|
      invariant a[start..q] == [Byte(|roles|)] + RoleEntries(roles[..i])
      invariant i > 0 ==> a[q] == NUL
      invariant forall j :: 0 <= j < a.Length && !(start <= j <= q) ==> a[j] == old(a[j])
    {
      RoleEntriesPrefix(roles, i);
      RoleEntriesWithin(roles, i + 1);
      q := WriteRoleEntry(a, start, q, roles[i]);
      i := i + 1;
    }
    assert roles[..|roles|] == roles;
  }

  /** One role entry at q, written as the loop of write_roles does: the
      bytes after the length byte first, then the length byte. */
  method WriteRoleEntry(a: array<byte>, start: nat, q: nat, role: seq<byte>) returns (r: nat)
    requires NulFree(role)
    requires start <= q && q + 1 + |role| < a.Length
    modifies a
    ensures r == q + 1 + |role|
    ensures a[start..r] == old(a[start..q]) + RoleEntry(role) && a[r] == NUL
    ensures forall j :: 0 <= j < a.Length && !(q <= j <= r) ==> a[j] == old(a[j])
  {
    r := CopyString(a, q + 1, role);
    a[q] := Byte(r - q - 1);
    assert a[start..r] == a[start..q] + [a[q]] + a[q + 1..r];
  }

  /** The entries of a prefix of the roles are no longer than all of them. */
  lemma {:induction false} RoleEntriesWithin(roles: seq<seq<byte>>, i: nat)
    requires i <= |roles|
    ensures |RoleEntries(roles[..i])| <= |RoleEntries(roles)|
    decreases |roles|
  {
    if i < |roles| {
      var n := |roles| - 1;
      assert roles[..n][..i] == roles[..i];
      RoleEntriesWithin(roles[..n], i);
    } else {
      assert roles[..i] == roles;
    }
  }

  /** The entries of one more role extend the entries of the ones before. */
  lemma RoleEntriesPrefix(roles: seq<seq<byte>>, i: nat)
    requires i < |roles|
    ensures RoleEntries(roles[..i + 1]) == RoleEntries(roles[..i]) + RoleEntry(roles[i])
  {
    assert roles[..i + 1][..i] == roles[..i];
  }

  /** as_send: the proto word for a message ending at end, big-endian in
      the first eight bytes; the socket write is not part of the model. */
  method WriteProto(a: array<byte>, end: nat)
    requires 8 + HEADER_REMAINING <= end <= a.Length
    requires end < 8 + 0x1_0000_0000_0000
    modifies a
    ensures a[..8] == BigEndian(ProtoWord(end), 8)
    ensures a[8..] == old(a[8..])
  {
    var word := BigEndian(ProtoWord(end), 8);
    forall i | 0 <= i < 8 {
      a[i] := word[i];
    }
  }

  // ---------------------------------------------------------------------
  // Readers
  // ---------------------------------------------------------------------

  /** A user and its roles as as_parse_users reports them. */
  datatype UserRoles = UserRoles(user: seq<byte>, roles: seq<seq<byte>>)

  /** The fields of one reply block read so far: where reading goes on,
      the user name (empty when none was read) and the roles, if a roles
      field was read. */
  datatype Fields = Fields(next: nat, user: seq<byte>, roles: Option<seq<seq<byte>>>)

  /** The outcome of reading replies: the status (None when a length
      points outside the bytes received or below the id byte, where the C
      code reads out of bounds) and the users collected so far. */
  datatype Parsed = Parsed(status: Option<int>, users: seq<UserRoles>)

  /** The string a terminated copy holds: the bytes before the first NUL. */
  function UntilNul(bs: seq<byte>): seq<byte>
  {
    if |bs| == 0 || bs[0] == NUL then [] else [bs[0]] + UntilNul(bs[1..])
  }

  /** The terminated copy is the longest NUL-free prefix: a prefix, free of
      NUL, and followed by a NUL unless it is the whole. */
  lemma {:induction false} UntilNulPrefix(bs: seq<byte>)
    ensures var r := UntilNul(bs);
      |r| <= |bs| && r == bs[..|r|] && NulFree(r) && (|r| < |bs| ==> bs[|r|] == NUL)
    decreases |bs|
  {
    if |bs| > 0 && bs[0] != NUL {
      UntilNulPrefix(bs[1..]);
      var r := UntilNul(bs[1..]);
      assert UntilNul(bs) == [bs[0]] + r;
      assert forall i :: 0 < i <= |r| ==> ([bs[0]] + r)[i] == r[i - 1];
    }
  }

  /** The bytes of a name copied into a buffer of capacity bytes: at most
      capacity - 1 of the len available, cut at a NUL. */
  function Truncated(s: seq<byte>, at: nat, len: nat, capacity: nat): seq<byte>
    requires capacity > 0 && at + Min(len, capacity - 1) <= |s|
  {
    UntilNul(s[at..at + Min(len, capacity - 1)])
  }

  function Min(a: nat, b: nat): nat
  {
    if a <= b then a else b
  }

  /** One role at p: its length byte and that many bytes, of which at
      most ROLE_SIZE - 1 are kept; and the position after it. */
  function RoleStep(s: seq<byte>, p: nat): (r: Option<(seq<byte>, nat)>)
    ensures r.Some? ==> r.value.1 > p
  {
    if p >= |s| then None
    else
      var len := s[p] as nat;
      if p + 1 + Min(len, ROLE_SIZE - 1) > |s| then None
      else Some((Truncated(s, p + 1, len, ROLE_SIZE), p + 1 + len))
  }

  /** The left roles from p on, after the ones in acc. */
  function RolesFrom(s: seq<byte>, p: nat, left: nat, acc: seq<seq<byte>>): (r: Option<(seq<seq<byte>>, nat)>)
    ensures r.Some? ==> r.value.1 >= p
    decreases left
  {
    if left == 0 then Some((acc, p))
    else
      match RoleStep(s, p)
      case None => None
      case Some(step) => RolesFrom(s, step.1, left - 1, acc + [step.0])
  }

  /** What as_parse_roles reads at p: the count byte, then the roles. */
  function RolesAt(s: seq<byte>, p: nat): (r: Option<(seq<seq<byte>>, nat)>)
    ensures r.Some? ==> r.value.1 > p
  {
    if p >= |s| then None else RolesFrom(s, p + 1, s[p] as nat, [])
  }

  /** The length a field header at p announces for its value: the stored
      length, a signed 32-bit int, less the id byte. */
  function FieldLength(s: seq<byte>, p: nat): int
    requires p + 4 <= |s|
  {
    Int32(Word32(s, p)) - 1
  }

  /** The four bytes at p read most significant first, as cf_swap_from_be32
      reads them. */
  function Word32(s: seq<byte>, p: nat): (r: nat)
    requires p + 4 <= |s|
    ensures r < 0x1_0000_0000
  {
    s[p] as nat * 0x100_0000 + s[p + 1] as nat * 0x1_0000 + s[p + 2] as nat * 0x100 + s[p + 3] as nat
  }

  /** One field at p: a user field replaces the name, a roles field
      replaces the roles, any other field is skipped, by its length even
      when that is negative. */
  function FieldStep(s: seq<byte>, f: Fields): (r: Option<Fields>)
  {
    var p := f.next;
    if p + FIELD_HEADER_SIZE > |s| then None
    else
      var len := FieldLength(s, p);
      var id := s[p + 4];
      var v := p + FIELD_HEADER_SIZE;
      if id == USER then
        if len < 0 || v + Min(len, USER_SIZE - 1) > |s| then None
        else Some(Fields(v + len, Truncated(s, v, len, USER_SIZE), f.roles))
      else if id == ROLES then
        match RolesAt(s, v)
        case None => None
        case Some(read) => Some(Fields(read.1, f.user, Some(read.0)))
      else if v + len < 0 then None
      else Some(Fields(v + len, f.user, f.roles))
  }

  /** A skipped field whose stored length is 0 has length -1 once the id
      byte is taken off, so the reader steps back onto that id byte. */
  lemma SkipOfStoredZero(s: seq<byte>, f: Fields)
    requires f.next + FIELD_HEADER_SIZE <= |s| && Word32(s, f.next) == 0
    requires s[f.next + 4] != USER && s[f.next + 4] != ROLES
    ensures FieldStep(s, f) == Some(Fields(f.next + 4, f.user, f.roles))
  {
  }

  /** The next left fields of a block. */
  function FieldsFrom(s: seq<byte>, f: Fields, left: nat): (r: Option<Fields>)
    decreases left
  {
    if left == 0 then Some(f)
    else
      match FieldStep(s, f)
      case None => None
      case Some(g) => FieldsFrom(s, g, left - 1)
  }

  /** The blocks of one reply from p on, after the users in acc: a block
      with a nonzero result byte ends the reading with that result; a block
      with neither a user name nor roles adds nothing. A block whose fields
      end at or before its start, which only skipped fields of negative
      length can do, is reported as None: the source reads from there on
      again and need not stop. */
  function UsersFrom(s: seq<byte>, p: nat, acc: seq<UserRoles>): (r: Parsed)
    decreases |s| - p
  {
    if p >= |s| then Parsed(Some(0), acc)
    else if p + 1 >= |s| then Parsed(None, acc)
    else if s[p + 1] != 0 then Parsed(Some(s[p + 1] as int), acc)
    else if p + 3 >= |s| then Parsed(None, acc)
    else
      match FieldsFrom(s, Fields(p + HEADER_REMAINING, [], None), s[p + 3] as nat)
      case None => Parsed(None, acc)
      case Some(f) =>
        if f.next <= p then Parsed(None, acc)
        else UsersFrom(s, f.next, if |f.user| == 0 && f.roles.None? then acc else acc + [Reported(f)])
  }

  /** The user a block's fields report; no roles field means no roles. */
  function Reported(f: Fields): UserRoles
  {
    UserRoles(f.user, if f.roles.Some? then f.roles.value else [])
  }

  /** The vector the users are appended to. */
  class UserList {
    var items: seq<UserRoles>

    constructor ()
      ensures items == []
    {
      items := [];
    }

    method Append(u: UserRoles)
      modifies this
      ensures items == old(items) + [u]
    {
      items := items + [u];
    }
  }

  /** as_parse_roles: the count byte at p, then each role's length byte
      and bytes; returns the roles and the position after the last. */
  method ParseRoles(buf: array<byte>, p: nat) returns (r: Option<(seq<seq<byte>>, nat)>)
    ensures r == RolesAt(buf[..], p)
  {
    if p >= buf.Length {
      return None;
    }
    ghost var s := buf[..];
    var size := buf[p] as nat;
    var q: nat := p + 1;
    var roles: seq<seq<byte>> := [];
    var i := 0;
    while i < size
      invariant 0 <= i <= size
      invariant RolesFrom(s, q, size - i, roles) == RolesAt(s, p)
    {
      var step := ParseRole(buf, q);
      if step.None? {
        return None;
      }
      roles := roles + [step.value.0];
      q := step.value.1;
      i := i + 1;
    }
    return Some((roles, q));
  }

  /** One pass of the as_parse_roles loop. */
  method ParseRole(buf: array<byte>, q: nat) returns (r: Option<(seq<byte>, nat)>)
    ensures r == RoleStep(buf[..], q)
  {
    if q >= buf.Length {
      return None;
    }
    var len := buf[q] as nat;
    var sz := Min(len, ROLE_SIZE - 1);
    if q + 1 + sz > buf.Length {
      return None;
    }
    var role := UntilNul(buf[q + 1..q + 1 + sz]);
    return Some((role, q + 1 + len));
  }

  /** The field loop of as_parse_users for one block. */
  method ParseFields(buf: array<byte>, p: nat, count: nat) returns (r: Option<Fields>)
    ensures r == FieldsFrom(buf[..], Fields(p, [], None), count)
  {
    ghost var s := buf[..];
    var f := Fields(p, [], None);
    var b := 0;
    while b < count
      invariant 0 <= b <= count
      invariant FieldsFrom(s, f, count - b) == FieldsFrom(s, Fields(p, [], None), count)
    {
      var g := ParseField(buf, f);
      FieldsFromStep(s, f, g, count - b);
      if g.None? {
        return None;
      }
      f := g.value;
      b := b + 1;
    }
    return Some(f);
  }

  /** One field read, then the others. */
  lemma FieldsFromStep(s: seq<byte>, f: Fields, g: Option<Fields>, left: nat)
    requires left > 0 && FieldStep(s, f) == g
    ensures g.None? ==> FieldsFrom(s, f, left) == None
    ensures g.Some? ==> FieldsFrom(s, f, left) == FieldsFrom(s, g.value, left - 1)
  {
  }

  /** One pass of the field loop: the length (less the id byte) and the id,
      then the user name, the roles or a skip. */
  method ParseField(buf: array<byte>, f: Fields) returns (r: Option<Fields>)
    ensures r == FieldStep(buf[..], f)
  {
    var q := f.next;
    if q + FIELD_HEADER_SIZE > buf.Length {
      return None;
    }
    var len := FieldLength(buf[..], q);
    var id := buf[q + 4];
    q := q + FIELD_HEADER_SIZE;
    if id == USER {
      if len < 0 {
        return None;
      }
      var sz := Min(len, USER_SIZE - 1);
      if q + sz > buf.Length {
        return None;
      }
      return Some(Fields(q + len, UntilNul(buf[q..q + sz]), f.roles));
    } else if id == ROLES {
      var read := ParseRoles(buf, q);
      if read.None? {
        return None;
      }
      return Some(Fields(read.value.1, f.user, Some(read.value.0)));
    } else {
      if q + len < 0 {
        return None;
      }
      return Some(Fields(q + len, f.user, f.roles));
    }
  }

  /** as_parse_users: block after block, stop at a nonzero result byte;
      a block naming a user or carrying roles is appended to users. */
  method ParseUsers(buf: array<byte>, users: UserList) returns (status: Option<int>)
    modifies users
    ensures Parsed(status, users.items) == UsersFrom(buf[..], 0, old(users.items))
  {
    ghost var s := buf[..];
    var p := 0;
    while p < buf.Length
      invariant UsersFrom(s, p, users.items) == UsersFrom(s, 0, old(users.items))
      decreases buf.Length - p
    {
      if p + 1 >= buf.Length {
        return None;
      }
      var result := buf[p + 1];
      if result != 0 {
        return Some(result as int);
      }
      if p + 3 >= buf.Length {
        return None;
      }
      var fieldCount := buf[p + 3] as nat;
      var fields := ParseFields(buf, p + HEADER_REMAINING, fieldCount);
      if fields.None? {
        return None;
      }
      var f := fields.value;
      if f.next <= p {
        return None;
      }
      if !(|f.user| == 0 && f.roles.None?) {
        users.Append(Reported(f));
      }
      p := f.next;
    }
    return Some(0);
  }

  // ---------------------------------------------------------------------
  // What the writers write, the readers read back
  // ---------------------------------------------------------------------

  /** A name as_parse_users keeps whole: no NUL and room for the
      terminator. */
  predicate FitsName(name: seq<byte>, capacity: nat)
  {
    NulFree(name) && |name| < capacity
  }

  /** A user whose block as_parse_users reads back unchanged: a name and
      role names that fit, and fewer than 256 roles. */
  predicate Representable(u: UserRoles)
  {
    && FitsName(u.user, USER_SIZE)
    && |u.roles| < 256
    && forall k :: 0 <= k < |u.roles| ==> FitsName(u.roles[k], ROLE_SIZE)
  }

  /** The reply block for one user, laid out as the writers lay out a
      message naming a user and roles: the header with two fields, the
      user field and the roles field. */
  function UserBlock(command: byte, u: UserRoles): seq<byte>
  {
    HeaderBytes(command, 2) + FieldString(USER, u.user) + RolesField(u.roles)
  }

  /** The blocks of several users one after the other. */
  function UserBlocks(command: byte, us: seq<UserRoles>): seq<byte>
  {
    if |us| == 0 then [] else UserBlock(command, us[0]) + UserBlocks(command, us[1..])
  }

  /** A string without NUL is its own terminated copy. */
  lemma {:induction false} UntilNulOfNulFree(bs: seq<byte>)
    requires NulFree(bs)
    ensures UntilNul(bs) == bs
    decreases |bs|
  {
    if |bs| > 0 {
      assert NulFree(bs[1..]) by {
        forall i | 0 <= i < |bs[1..]| ensures bs[1..][i] != NUL {
          assert bs[1..][i] == bs[i + 1];
        }
      }
      UntilNulOfNulFree(bs[1..]);
      assert [bs[0]] + bs[1..] == bs;
    }
  }

  /** The field length reader undoes the field header writer. */
  lemma FieldHeaderRead(s: seq<byte>, p: nat, id: byte, size: nat)
    requires p + FIELD_HEADER_SIZE <= |s| && s[p..p + FIELD_HEADER_SIZE] == FieldHeader(id, size)
    requires size + 1 < 0x8000_0000
    ensures FieldLength(s, p) == size && s[p + 4] == id
  {
    var w := s[p..p + 4];
    assert w == s[p..p + FIELD_HEADER_SIZE][..4];
    assert Pow256(4) == 0x1_0000_0000;
    DecodeBigEndian(size + 1, 4);
    DecodeWord(w);
    assert Word32(w, 0) == Word32(s, p) by {
      assert w[0] == s[p] && w[1] == s[p + 1] && w[2] == s[p + 2] && w[3] == s[p + 3];
    }
    assert s[p + 4] == s[p..p + FIELD_HEADER_SIZE][4];
  }

  /** Four bytes decode as the word they spell. */
  lemma DecodeWord(w: seq<byte>)
    requires |w| == 4
    ensures Decode(w) == Word32(w, 0)
  {
    var w3, w2, w1 := w[..3], w[..2], w[..1];
    assert w3[..2] == w2 && w2[..1] == w1 && w1[..0] == [];
    assert Decode(w1) == w[0] as nat;
    assert Decode(w2) == w[0] as nat * 0x100 + w[1] as nat;
    assert Decode(w3) == w[0] as nat * 0x1_0000 + w[1] as nat * 0x100 + w[2] as nat;
  }

  /** The entries of roles put in front of more roles. */
  lemma {:induction false} RoleEntriesCons(r: seq<byte>, rest: seq<seq<byte>>)
    ensures RoleEntries([r] + rest) == RoleEntry(r) + RoleEntries(rest)
    decreases |rest|
  {
    var xs := [r] + rest;
    if |rest| > 0 {
      var n := |rest| - 1;
      assert xs[..|xs| - 1] == [r] + rest[..n];
      assert xs[|xs| - 1] == rest[n];
      RoleEntriesCons(r, rest[..n]);
    } else {
      assert xs[..0] == [];
    }
  }

  /** Each role entry takes its length byte and the role's bytes. */
  lemma {:induction false} RoleEntriesSize(roles: seq<seq<byte>>)
    requires forall k :: 0 <= k < |roles| ==> |roles[k]| < ROLE_SIZE
    ensures |RoleEntries(roles)| <= |roles| * ROLE_SIZE
    decreases |roles|
  {
    if |roles| > 0 {
      RoleEntriesSize(roles[..|roles| - 1]);
    }
  }

  /** One written role entry is read back as the role. */
  lemma RoleStepRead(s: seq<byte>, p: nat, r: seq<byte>)
    requires FitsName(r, ROLE_SIZE)
    requires p + 1 + |r| <= |s| && s[p..p + 1 + |r|] == RoleEntry(r)
    ensures RoleStep(s, p) == Some((r, p + 1 + |r|))
  {
    assert s[p] == s[p..p + 1 + |r|][0];
    assert s[p + 1..p + 1 + |r|] == s[p..p + 1 + |r|][1..];
    UntilNulOfNulFree(r);
  }

  /** Written role entries are read back as the roles, in order. */
  lemma {:induction false} RolesFromRead(s: seq<byte>, p: nat, roles: seq<seq<byte>>, acc: seq<seq<byte>>)
    requires forall k :: 0 <= k < |roles| ==> FitsName(roles[k], ROLE_SIZE)
    requires p + |RoleEntries(roles)| <= |s| && s[p..p + |RoleEntries(roles)|] == RoleEntries(roles)
    ensures RolesFrom(s, p, |roles|, acc) == Some((acc + roles, p + |RoleEntries(roles)|))
    decreases |roles|
  {
    if |roles| == 0 {
      assert acc + roles == acc;
    } else {
      var r, rest := roles[0], roles[1..];
      var q := FirstRoleRead(s, p, roles);
      RolesFromRead(s, q, rest, acc + [r]);
      RolesChain(s, p, q, r, rest, acc, q + |RoleEntries(rest)|);
      assert [r] + rest == roles;
    }
  }

  /** The first written role entry is read as the first role; the entries
      of the others follow it. */
  lemma FirstRoleRead(s: seq<byte>, p: nat, roles: seq<seq<byte>>) returns (q: nat)
    requires |roles| > 0 && FitsName(roles[0], ROLE_SIZE)
    requires p + |RoleEntries(roles)| <= |s| && s[p..p + |RoleEntries(roles)|] == RoleEntries(roles)
    ensures q == p + 1 + |roles[0]| && RoleStep(s, p) == Some((roles[0], q))
    ensures q + |RoleEntries(roles[1..])| == p + |RoleEntries(roles)|
    ensures s[q..q + |RoleEntries(roles[1..])|] == RoleEntries(roles[1..])
  {
    var r, rest := roles[0], roles[1..];
    assert [r] + rest == roles;
    RoleEntriesCons(r, rest);
    TwoWindows(s, p, RoleEntry(r), RoleEntries(rest));
    RoleStepRead(s, p, r);
    q := p + 1 + |r|;
  }

  /** Reading one role and then the others reads them all. */
  lemma RolesChain(s: seq<byte>, p: nat, q: nat, r: seq<byte>, rest: seq<seq<byte>>, acc: seq<seq<byte>>, e: nat)
    requires RoleStep(s, p) == Some((r, q))
    requires RolesFrom(s, q, |rest|, acc + [r]) == Some((acc + [r] + rest, e))
    ensures RolesFrom(s, p, |rest| + 1, acc) == Some((acc + ([r] + rest), e))
  {
    assert acc + [r] + rest == acc + ([r] + rest);
  }

  /** A window holding two pieces holds each of them in turn. */
  lemma TwoWindows(s: seq<byte>, p: nat, x: seq<byte>, y: seq<byte>)
    requires p + |x + y| <= |s| && s[p..p + |x + y|] == x + y
    ensures s[p..p + |x|] == x
    ensures s[p + |x|..p + |x| + |y|] == y
  {
    assert (x + y)[..|x|] == x && (x + y)[|x|..] == y;
    SliceWithin(s, p, x + y, 0, |x|);
    SliceWithin(s, p, x + y, |x|, |x + y|);
  }

  /** A written roles value is read back by as_parse_roles. */
  lemma RolesAtRead(s: seq<byte>, p: nat, roles: seq<seq<byte>>)
    requires |roles| < 256 && forall k :: 0 <= k < |roles| ==> FitsName(roles[k], ROLE_SIZE)
    requires p + |RolesBody(roles)| <= |s| && s[p..p + |RolesBody(roles)|] == RolesBody(roles)
    ensures RolesAt(s, p) == Some((roles, p + |RolesBody(roles)|))
  {
    RolesBodyLayout(s, p, roles);
    RolesFromRead(s, p + 1, roles, []);
    assert [] + roles == roles;
  }

  /** A written roles value: the count byte, then the entries. */
  lemma RolesBodyLayout(s: seq<byte>, p: nat, roles: seq<seq<byte>>)
    requires |roles| < 256
    requires p + |RolesBody(roles)| <= |s| && s[p..p + |RolesBody(roles)|] == RolesBody(roles)
    ensures p < |s| && s[p] as nat == |roles| && |RolesBody(roles)| == 1 + |RoleEntries(roles)|
    ensures s[p + 1..p + 1 + |RoleEntries(roles)|] == RoleEntries(roles)
  {
    var body := RolesBody(roles);
    assert s[p] == body[0];
    assert s[p + 1..p + |body|] == body[1..];
  }

  /** A written user field shows its header and the name at p. */
  lemma UserFieldWindow(s: seq<byte>, p: nat, user: seq<byte>)
    requires |user| < USER_SIZE
    requires p + |FieldString(USER, user)| <= |s|
    requires s[p..p + |FieldString(USER, user)|] == FieldString(USER, user)
    ensures p + FIELD_HEADER_SIZE + |user| <= |s|
    ensures FieldLength(s, p) == |user| && s[p + 4] == USER
    ensures s[p + FIELD_HEADER_SIZE..p + FIELD_HEADER_SIZE + |user|] == user
  {
    TwoWindows(s, p, FieldHeader(USER, |user|), user);
    FieldHeaderRead(s, p, USER, |user|);
  }

  /** A written roles field shows its header and the roles at p. */
  lemma RolesFieldWindow(s: seq<byte>, p: nat, roles: seq<seq<byte>>)
    requires |roles| < 256 && forall k :: 0 <= k < |roles| ==> FitsName(roles[k], ROLE_SIZE)
    requires p + |RolesField(roles)| <= |s|
    requires s[p..p + |RolesField(roles)|] == RolesField(roles)
    ensures p + FIELD_HEADER_SIZE <= |s|
    ensures FieldLength(s, p) >= 0 && s[p + 4] == ROLES
    ensures RolesAt(s, p + FIELD_HEADER_SIZE) == Some((roles, p + |RolesField(roles)|))
  {
    var body := RolesBody(roles);
    RoleEntriesSize(roles);
    TwoWindows(s, p, FieldHeader(ROLES, |body|), body);
    FieldHeaderRead(s, p, ROLES, |body|);
    RolesAtRead(s, p + FIELD_HEADER_SIZE, roles);
  }

  /** A user field holding a name that fits is read as that name. */
  lemma UserFieldStep(s: seq<byte>, f: Fields, user: seq<byte>)
    requires FitsName(user, USER_SIZE)
    requires f.next + FIELD_HEADER_SIZE + |user| <= |s|
    requires FieldLength(s, f.next) == |user| && s[f.next + 4] == USER
    requires s[f.next + FIELD_HEADER_SIZE..f.next + FIELD_HEADER_SIZE + |user|] == user
    ensures FieldStep(s, f) == Some(Fields(f.next + FIELD_HEADER_SIZE + |user|, user, f.roles))
  {
    UntilNulOfNulFree(user);
  }

  /** A roles field whose roles read up to q is read as those roles. */
  lemma RolesFieldStep(s: seq<byte>, f: Fields, roles: seq<seq<byte>>, q: nat)
    requires f.next + FIELD_HEADER_SIZE <= q
    requires f.next + FIELD_HEADER_SIZE <= |s| && s[f.next + 4] == ROLES
    requires RolesAt(s, f.next + FIELD_HEADER_SIZE) == Some((roles, q))
    ensures FieldStep(s, f) == Some(Fields(q, f.user, Some(roles)))
  {
  }

  /** A window of a window is a window of the whole. */
  lemma SliceWithin(s: seq<byte>, p: nat, t: seq<byte>, x: nat, y: nat)
    requires p + |t| <= |s| && s[p..p + |t|] == t && x <= y <= |t|
    ensures s[p + x..p + y] == t[x..y]
  {
    forall i | 0 <= i < y - x
      ensures s[p + x..p + y][i] == t[x..y][i]
    {
      assert s[p + x..p + y][i] == s[p..p + |t|][x + i];
    }
  }

  /** The two parts of a suffix made of two pieces. */
  lemma SplitSuffix(s: seq<byte>, p: nat, x: seq<byte>, y: seq<byte>)
    requires p <= |s| && s[p..] == x + y
    ensures p + |x| <= |s| && s[p..p + |x|] == x && s[p + |x|..] == y
  {
    assert s[p..p + |x|] == (x + y)[..|x|];
    assert s[p + |x|..] == (x + y)[|x|..];
  }

  /** The three parts of a concatenation, by position. */
  lemma ThreeParts(a: seq<byte>, b: seq<byte>, c: seq<byte>)
    ensures (a + b + c)[..|a|] == a
    ensures (a + b + c)[|a|..|a| + |b|] == b
    ensures (a + b + c)[|a| + |b|..] == c
  {
  }

  /** The header carries result 0 and the field count in byte 3. */
  lemma HeaderBytesAt(command: byte, fieldCount: byte)
    ensures HeaderBytes(command, fieldCount)[1] == 0
    ensures HeaderBytes(command, fieldCount)[3] == fieldCount
  {
  }

  /** A block with result 0 whose two fields read as a user and its roles
      adds that user. */
  lemma BlockRead(s: seq<byte>, p: nat, n: nat, u: UserRoles, acc: seq<UserRoles>)
    requires n > 0 && p + 3 < |s| && s[p + 1] == 0 && s[p + 3] == 2
    requires FieldsFrom(s, Fields(p + HEADER_REMAINING, [], None), 2) == Some(Fields(p + n, u.user, Some(u.roles)))
    ensures UsersFrom(s, p, acc) == UsersFrom(s, p + n, acc + [u])
  {
  }

  /** Two fields read in turn make the two fields of a block. */
  lemma TwoFieldsRead(s: seq<byte>, f0: Fields, f1: Fields, f2: Fields)
    requires FieldStep(s, f0) == Some(f1) && FieldStep(s, f1) == Some(f2)
    ensures FieldsFrom(s, f0, 2) == Some(f2)
  {
    assert FieldsFrom(s, f1, 1) == FieldsFrom(s, f2, 0);
  }

  /** A window holding three pieces holds each of them in turn. */
  lemma ThreeWindows(s: seq<byte>, p: nat, x: seq<byte>, y: seq<byte>, z: seq<byte>)
    requires p + |x + y + z| <= |s| && s[p..p + |x + y + z|] == x + y + z
    ensures s[p..p + |x|] == x
    ensures s[p + |x|..p + |x| + |y|] == y
    ensures s[p + |x| + |y|..p + |x| + |y| + |z|] == z
  {
    ThreeParts(x, y, z);
    SliceWithin(s, p, x + y + z, 0, |x|);
    SliceWithin(s, p, x + y + z, |x|, |x| + |y|);
    SliceWithin(s, p, x + y + z, |x| + |y|, |x + y + z|);
  }

  /** The written header reads as result 0 with two fields. */
  lemma HeaderRead(s: seq<byte>, p: nat, command: byte)
    requires p + HEADER_REMAINING <= |s| && s[p..p + HEADER_REMAINING] == HeaderBytes(command, 2)
    ensures p + 3 < |s| && s[p + 1] == 0 && s[p + 3] == 2
  {
    HeaderBytesAt(command, 2);
    assert s[p..p + HEADER_REMAINING][1] == s[p + 1] && s[p..p + HEADER_REMAINING][3] == s[p + 3];
  }

  /** A block with result 0, two fields, a user field and a roles field
      adds that user; m is where the roles field starts, e where it ends. */
  lemma BlockFieldsRead(s: seq<byte>, p: nat, u: UserRoles, m: nat, e: nat, acc: seq<UserRoles>)
    requires p + 3 < |s| && s[p + 1] == 0 && s[p + 3] == 2
    requires FitsName(u.user, USER_SIZE) && m == p + HEADER_REMAINING + FIELD_HEADER_SIZE + |u.user| <= |s|
    requires FieldLength(s, p + HEADER_REMAINING) == |u.user| && s[p + HEADER_REMAINING + 4] == USER
    requires s[p + HEADER_REMAINING + FIELD_HEADER_SIZE..m] == u.user
    requires m + FIELD_HEADER_SIZE <= e && m + FIELD_HEADER_SIZE <= |s|
    requires FieldLength(s, m) >= 0 && s[m + 4] == ROLES
    requires RolesAt(s, m + FIELD_HEADER_SIZE) == Some((u.roles, e))
    ensures UsersFrom(s, p, acc) == UsersFrom(s, e, acc + [u])
  {
    var f0 := Fields(p + HEADER_REMAINING, [], None);
    var f1 := Fields(m, u.user, None);
    var f2 := Fields(e, u.user, Some(u.roles));
    UserFieldStep(s, f0, u.user);
    RolesFieldStep(s, f1, u.roles, e);
    TwoFieldsRead(s, f0, f1, f2);
    BlockRead(s, p, e - p, u, acc);
  }

  /** The reply to a user query, made of written user blocks, is read back
      as those users, in order and complete. */
  lemma {:induction false} UserBlocksRead(s: seq<byte>, p: nat, command: byte, us: seq<UserRoles>, acc: seq<UserRoles>)
    requires BlocksAt(s, p, command, us)
    ensures UsersFrom(s, p, acc) == Parsed(Some(0), acc + us)
    decreases |us|
  {
    if |us| == 0 {
      assert acc + us == acc;
    } else {
      var q := p + |UserBlock(command, us[0])|;
      BlocksAtRest(s, p, command, us);
      UserBlocksRead(s, q, command, us[1..], acc + [us[0]]);
      UserBlockFirst(s, p, command, us, acc);
      UsersChain(s, p, q, acc, us);
    }
  }

  /** Block k of us lies in s where the blocks before it end. */
  predicate BlockWindow(s: seq<byte>, p: nat, command: byte, us: seq<UserRoles>, k: nat)
    requires k < |us|
  {
    var a := p + |UserBlocks(command, us[..k])|;
    var b := a + |UserBlock(command, us[k])|;
    Representable(us[k]) && b <= |s| && s[a..b] == UserBlock(command, us[k])
  }

  /** The blocks of us lie in s from p to its end, one window each. */
  predicate BlocksAt(s: seq<byte>, p: nat, command: byte, us: seq<UserRoles>)
  {
    && p + |UserBlocks(command, us)| == |s|
    && forall k :: 0 <= k < |us| ==> BlockWindow(s, p, command, us, k)
  }

  /** The blocks before k + 1 are the first block and the blocks of the
      rest before k. */
  lemma BlocksPrefix(command: byte, us: seq<UserRoles>, k: nat)
    requires k < |us|
    ensures |UserBlocks(command, us[..k + 1])| == |UserBlock(command, us[0])| + |UserBlocks(command, us[1..][..k])|
  {
    assert us[..k + 1][0] == us[0] && us[..k + 1][1..] == us[1..][..k];
  }

  /** The first block is read as the first user. */
  lemma UserBlockFirst(s: seq<byte>, p: nat, command: byte, us: seq<UserRoles>, acc: seq<UserRoles>)
    requires |us| > 0 && BlocksAt(s, p, command, us)
    ensures UsersFrom(s, p, acc) == UsersFrom(s, p + |UserBlock(command, us[0])|, acc + [us[0]])
  {
    var m := p + HEADER_REMAINING + FIELD_HEADER_SIZE + |us[0].user|;
    FirstHeadRead(s, p, command, us);
    FirstRolesRead(s, p, command, us);
    BlockFieldsRead(s, p, us[0], m, p + |UserBlock(command, us[0])|, acc);
  }

  /** The header and user field of the first block. */
  lemma FirstHeadRead(s: seq<byte>, p: nat, command: byte, us: seq<UserRoles>)
    requires |us| > 0 && BlocksAt(s, p, command, us)
    ensures p + 3 < |s| && s[p + 1] == 0 && s[p + 3] == 2
    ensures FitsName(us[0].user, USER_SIZE) && p + HEADER_REMAINING + FIELD_HEADER_SIZE + |us[0].user| <= |s|
    ensures FieldLength(s, p + HEADER_REMAINING) == |us[0].user| && s[p + HEADER_REMAINING + 4] == USER
    ensures s[p + HEADER_REMAINING + FIELD_HEADER_SIZE..p + HEADER_REMAINING + FIELD_HEADER_SIZE + |us[0].user|] == us[0].user
  {
    assert BlockWindow(s, p, command, us, 0) && us[..0] == [];
    BlockHeadRead(s, p, command, us[0]);
  }

  /** The roles field of the first block, as one window. */
  lemma FirstRolesWindow(s: seq<byte>, p: nat, command: byte, us: seq<UserRoles>)
    requires |us| > 0 && BlocksAt(s, p, command, us)
    ensures Representable(us[0])
    ensures var m := p + HEADER_REMAINING + FIELD_HEADER_SIZE + |us[0].user|;
      m + |RolesField(us[0].roles)| == p + |UserBlock(command, us[0])| <= |s|
      && s[m..m + |RolesField(us[0].roles)|] == RolesField(us[0].roles)
  {
    assert BlockWindow(s, p, command, us, 0) && us[..0] == [];
    BlockRolesWindow(s, p, command, us[0]);
  }

  /** The roles field of the first block is read as its roles. */
  lemma FirstRolesRead(s: seq<byte>, p: nat, command: byte, us: seq<UserRoles>)
    requires |us| > 0 && BlocksAt(s, p, command, us)
    ensures var m := p + HEADER_REMAINING + FIELD_HEADER_SIZE + |us[0].user|;
      && m + FIELD_HEADER_SIZE <= p + |UserBlock(command, us[0])| && m + FIELD_HEADER_SIZE <= |s|
      && FieldLength(s, m) >= 0 && s[m + 4] == ROLES
      && RolesAt(s, m + FIELD_HEADER_SIZE) == Some((us[0].roles, p + |UserBlock(command, us[0])|))
  {
    FirstRolesWindow(s, p, command, us);
    RolesFieldWindow(s, p + HEADER_REMAINING + FIELD_HEADER_SIZE + |us[0].user|, us[0].roles);
  }

  /** Block k + 1 of us is block k of the rest. */
  lemma WindowOfRest(s: seq<byte>, p: nat, command: byte, us: seq<UserRoles>, k: nat)
    requires k + 1 < |us|
    ensures BlockWindow(s, p, command, us, k + 1) == BlockWindow(s, p + |UserBlock(command, us[0])|, command, us[1..], k)
  {
    BlocksPrefix(command, us, k);
    assert us[1..][k] == us[k + 1];
  }

  /** Past the first block lie the blocks of the others. */
  lemma BlocksAtRest(s: seq<byte>, p: nat, command: byte, us: seq<UserRoles>)
    requires |us| > 0 && BlocksAt(s, p, command, us)
    ensures BlocksAt(s, p + |UserBlock(command, us[0])|, command, us[1..])
  {
    WindowsOfRest(s, p, p + |UserBlock(command, us[0])|, command, us);
  }

  /** The windows of the blocks after the first, seen from either end. */
  lemma WindowsOfRest(s: seq<byte>, p: nat, q: nat, command: byte, us: seq<UserRoles>)
    requires |us| > 0 && q == p + |UserBlock(command, us[0])|
    ensures (forall k :: 0 <= k < |us| - 1 ==> BlockWindow(s, q, command, us[1..], k))
        <==> (forall k :: 0 < k < |us| ==> BlockWindow(s, p, command, us, k))
  {
    forall k | 0 <= k < |us| - 1
      ensures BlockWindow(s, q, command, us[1..], k) == BlockWindow(s, p, command, us, k + 1)
    {
      WindowOfRest(s, p, command, us, k);
    }
    if forall k :: 0 <= k < |us| - 1 ==> BlockWindow(s, q, command, us[1..], k) {
      forall k | 0 < k < |us|
        ensures BlockWindow(s, p, command, us, k)
      {
        assert BlockWindow(s, q, command, us[1..], k - 1);
      }
    }
  }

  /** A first block in place, followed by the blocks of the others, makes
      the blocks of all. */
  lemma BlocksAtCons(s: seq<byte>, p: nat, command: byte, us: seq<UserRoles>)
    requires |us| > 0 && BlockWindow(s, p, command, us, 0)
    requires BlocksAt(s, p + |UserBlock(command, us[0])|, command, us[1..])
    ensures BlocksAt(s, p, command, us)
  {
    WindowsOfRest(s, p, p + |UserBlock(command, us[0])|, command, us);
  }

  /** A suffix made of blocks holds them one window each. */
  lemma {:induction false} BlocksAtOf(s: seq<byte>, p: nat, command: byte, us: seq<UserRoles>)
    requires forall k :: 0 <= k < |us| ==> Representable(us[k])
    requires p <= |s| && s[p..] == UserBlocks(command, us)
    ensures BlocksAt(s, p, command, us)
    decreases |us|
  {
    if |us| > 0 {
      SplitSuffix(s, p, UserBlock(command, us[0]), UserBlocks(command, us[1..]));
      BlocksAtOf(s, p + |UserBlock(command, us[0])|, command, us[1..]);
      assert us[..0] == [];
      BlocksAtCons(s, p, command, us);
    }
  }

  /** The header and user field of a written user block. */
  lemma BlockHeadRead(s: seq<byte>, p: nat, command: byte, u: UserRoles)
    requires Representable(u)
    requires p + |UserBlock(command, u)| <= |s| && s[p..p + |UserBlock(command, u)|] == UserBlock(command, u)
    ensures p + 3 < |s| && s[p + 1] == 0 && s[p + 3] == 2
    ensures p + HEADER_REMAINING + FIELD_HEADER_SIZE + |u.user| <= |s|
    ensures FieldLength(s, p + HEADER_REMAINING) == |u.user| && s[p + HEADER_REMAINING + 4] == USER
    ensures s[p + HEADER_REMAINING + FIELD_HEADER_SIZE..p + HEADER_REMAINING + FIELD_HEADER_SIZE + |u.user|] == u.user
  {
    var m, e := UserBlockWindows(s, p, command, u);
    HeaderRead(s, p, command);
    UserFieldWindow(s, p + HEADER_REMAINING, u.user);
  }

  /** The roles field of a written user block, as one window. */
  lemma BlockRolesWindow(s: seq<byte>, p: nat, command: byte, u: UserRoles)
    requires p + |UserBlock(command, u)| <= |s| && s[p..p + |UserBlock(command, u)|] == UserBlock(command, u)
    ensures var m := p + HEADER_REMAINING + FIELD_HEADER_SIZE + |u.user|;
      m + |RolesField(u.roles)| == p + |UserBlock(command, u)|
      && s[m..m + |RolesField(u.roles)|] == RolesField(u.roles)
  {
    var m, e := UserBlockWindows(s, p, command, u);
  }

  /** A written user block is its header, user field and roles field, one
      window each; m is where the roles field starts, e where it ends. */
  lemma UserBlockWindows(s: seq<byte>, p: nat, command: byte, u: UserRoles) returns (m: nat, e: nat)
    requires p + |UserBlock(command, u)| <= |s| && s[p..p + |UserBlock(command, u)|] == UserBlock(command, u)
    ensures m == p + HEADER_REMAINING + |FieldString(USER, u.user)| && e == p + |UserBlock(command, u)|
    ensures s[p..p + HEADER_REMAINING] == HeaderBytes(command, 2)
    ensures s[p + HEADER_REMAINING..m] == FieldString(USER, u.user)
    ensures m + |RolesField(u.roles)| == e <= |s| && s[m..e] == RolesField(u.roles)
  {
    var header, userField, rolesField := HeaderBytes(command, 2), FieldString(USER, u.user), RolesField(u.roles);
    m := p + |header| + |userField|;
    e := m + |rolesField|;
    ThreeWindows(s, p, header, userField, rolesField);
  }

  /** Reading one user and then the others reads them all. */
  lemma UsersChain(s: seq<byte>, p: nat, e: nat, acc: seq<UserRoles>, us: seq<UserRoles>)
    requires |us| > 0
    requires UsersFrom(s, p, acc) == UsersFrom(s, e, acc + [us[0]])
    requires UsersFrom(s, e, acc + [us[0]]) == Parsed(Some(0), acc + [us[0]] + us[1..])
    ensures UsersFrom(s, p, acc) == Parsed(Some(0), acc + us)
  {
    assert acc + [us[0]] + us[1..] == acc + us;
  }

  /** as_parse_users reads written user blocks back. */
  lemma ParseUsersRoundTrip(command: byte, us: seq<UserRoles>)
    requires forall k :: 0 <= k < |us| ==> Representable(us[k])
    ensures UsersFrom(UserBlocks(command, us), 0, []) == Parsed(Some(0), us)
  {
    var s := UserBlocks(command, us);
    assert s[0..] == s;
    BlocksAtOf(s, 0, command, us);
    UserBlocksRead(s, 0, command, us, []);
    assert [] + us == us;
  }

  // ---------------------------------------------------------------------
  // Messages, replies and results
  // ---------------------------------------------------------------------

  /** The body of a message naming a user and roles, as the grant, revoke
      and replace roles calls build it after the proto word: the header
      with two fields, the user field, the roles field. Returns the end of
      the message. */
  method WriteRolesMessage(a: array<byte>, command: byte, user: seq<byte>, roles: seq<seq<byte>>) returns (end: nat)
    requires NulFree(user) && forall k :: 0 <= k < |roles| ==> NulFree(roles[k])
    requires 8 + |UserBlock(command, UserRoles(user, roles))| < a.Length
    requires |user| + 1 < 0x8000_0000 && |RolesBody(roles)| + 1 < 0x8000_0000
    modifies a
    ensures end == 8 + |UserBlock(command, UserRoles(user, roles))|
    ensures a[8..end] == UserBlock(command, UserRoles(user, roles))
    ensures a[..8] == old(a[..8])
  {
    var header, field := HeaderBytes(command, 2), FieldString(USER, user);
    var p := WriteHeader(a, 8, command, 2);
    var q := WriteFieldString(a, p, USER, user);
    ghost var written := a[8..q];
    assert written == header + field by {
      assert a[8..p] == header;
      assert a[8..q] == a[8..p] + a[p..q];
    }
    end := WriteRoles(a, q, roles);
    assert a[8..q] == written;
    assert a[8..end] == a[8..q] + a[q..end];
  }

  /** The size a proto word announces: its low 48 bits, taken as a C int. */
  function ProtoSize(word: seq<byte>): int
    requires |word| == 8
  {
    Int32(Decode(word) % 0x1_0000_0000_0000 % 0x1_0000_0000)
  }

  /** The reader recovers from the proto word the length of what follows
      it. */
  lemma ProtoSizeRead(len: int)
    requires 8 <= len < 8 + 0x8000_0000
    ensures ProtoSize(BigEndian(ProtoWord(len), 8)) == len - 8
  {
    assert Pow256(8) == 0x1_0000_0000_0000_0000;
    DecodeBigEndian(ProtoWord(len), 8);
  }

  /** A message or reply block as sent: the proto word, then the body. */
  function Frame(body: seq<byte>): seq<byte>
    requires |body| < 0x8000_0000
  {
    BigEndian(ProtoWord(|body| + 8), 8) + body
  }

  /** Where reading one reply block leaves as_read_user_blocks: at the
      next block with the users so far, or done with an outcome. */
  datatype Step = Next(pos: nat, users: seq<UserRoles>) | Done(result: Parsed)

  /** One reply block at pos: a proto word, then that many bytes parsed
      as user blocks. A read that cannot complete gives -1, a size of zero
      or less ends the reading with 0, and reading goes on while parsing
      gives 0. */
  function BlockStep(input: seq<byte>, pos: nat, acc: seq<UserRoles>): (r: Step)
    ensures r.Next? ==> pos < r.pos <= |input|
  {
    if pos + 8 > |input| then Done(Parsed(Some(-1), acc))
    else
      var size := ProtoSize(input[pos..pos + 8]);
      if size <= 0 then Done(Parsed(Some(0), acc))
      else if pos + 8 + size > |input| then Done(Parsed(Some(-1), acc))
      else
        var r := UsersFrom(input[pos + 8..pos + 8 + size], 0, acc);
        if r.status == Some(0) then Next(pos + 8 + size, r.users) else Done(r)
  }

  /** The reply blocks from pos on, after the users in acc. */
  function BlocksFrom(input: seq<byte>, pos: nat, acc: seq<UserRoles>): Parsed
    decreases |input| - pos
  {
    match BlockStep(input, pos, acc)
    case Done(r) => r
    case Next(next, users) => BlocksFrom(input, next, users)
  }

  /** as_read_user_blocks: the blocks, with QUERY_END reported as 0. */
  function ReadUsersSpec(input: seq<byte>, acc: seq<UserRoles>): (r: Parsed)
    ensures r.status != Some(QUERY_END)
  {
    var r := BlocksFrom(input, 0, acc);
    if r.status == Some(QUERY_END) then Parsed(Some(0), r.users) else r
  }

  /** as_read_user_blocks over the bytes the socket delivers before the
      deadline. */
  method ReadUserBlocks(input: seq<byte>, users: UserList) returns (status: Option<int>)
    modifies users
    ensures Parsed(status, users.items) == ReadUsersSpec(input, old(users.items))
  {
    var pos := 0;
    while true
      invariant pos <= |input|
      invariant BlocksFrom(input, pos, users.items) == BlocksFrom(input, 0, old(users.items))
      decreases |input| - pos
    {
      var step := ReadBlock(input, pos, users);
      if step.Done? {
        status := step.result.status;
        break;
      }
      pos := step.pos;
    }
    if status == Some(QUERY_END) {
      status := Some(0);
    }
  }

  /** One pass of the as_read_user_blocks loop: the proto word, the block
      into a buffer of its size, and as_parse_users over it. */
  method ReadBlock(input: seq<byte>, pos: nat, users: UserList) returns (step: Step)
    requires pos <= |input|
    modifies users
    ensures step == BlockStep(input, pos, old(users.items))
    ensures step.Next? ==> step.pos <= |input| && users.items == step.users
    ensures step.Done? ==> users.items == step.result.users
  {
    if pos + 8 > |input| {
      return Done(Parsed(Some(-1), users.items));
    }
    var size := ProtoSize(input[pos..pos + 8]);
    if size <= 0 {
      return Done(Parsed(Some(0), users.items));
    }
    if pos + 8 + size > |input| {
      return Done(Parsed(Some(-1), users.items));
    }
    var status := ParseBlock(input[pos + 8..pos + 8 + size], users);
    if status == Some(0) {
      return Next(pos + 8 + size, users.items);
    }
    return Done(Parsed(status, users.items));
  }

  /** The block copied into a buffer of its size and parsed there. */
  method ParseBlock(block: seq<byte>, users: UserList) returns (status: Option<int>)
    modifies users
    ensures Parsed(status, users.items) == UsersFrom(block, 0, old(users.items))
  {
    var buf := new byte[|block|](i requires 0 <= i < |block| => block[i]);
    assert buf[..] == block;
    status := ParseUsers(buf, users);
  }

  // ---------------------------------------------------------------------
  // What as_read_user_blocks reads back
  // ---------------------------------------------------------------------

  /** A framed body announces its own length. */
  lemma FrameAnnounces(body: seq<byte>)
    requires |body| < 0x8000_0000
    ensures |Frame(body)| == 8 + |body| && Frame(body)[8..] == body
    ensures ProtoSize(Frame(body)[..8]) == |body|
  {
    assert Frame(body)[..8] == BigEndian(ProtoWord(|body| + 8), 8);
    ProtoSizeRead(|body| + 8);
  }

  /** A block of size zero ends the reading with 0 and the users read so
      far. */
  lemma EmptyFrameStops(input: seq<byte>, pos: nat, acc: seq<UserRoles>)
    requires pos + 8 <= |input| && input[pos..pos + 8] == Frame([])
    ensures BlocksFrom(input, pos, acc) == Parsed(Some(0), acc)
  {
    FrameAnnounces([]);
    assert Frame([])[..8] == Frame([]);
    EndBlockStops(input, pos, acc);
  }

  /** A first block whose result byte is not zero ends the reading with
      the users given: QUERY_END as 0, any other result as itself. */
  lemma ResultByteEndsReading(body: seq<byte>, rest: seq<byte>, acc: seq<UserRoles>)
    requires 1 < |body| < 0x8000_0000 && body[1] != 0
    ensures ReadUsersSpec(Frame(body) + rest, acc)
      == Parsed(Some(if body[1] as int == QUERY_END then 0 else body[1] as int), acc)
  {
    var input := Frame(body) + rest;
    FrameAnnounces(body);
    assert input[..8] == Frame(body)[..8];
    assert input[8..8 + |body|] == body;
    assert UsersFrom(body, 0, acc) == Parsed(Some(body[1] as int), acc);
  }

  /** Written user blocks read back after the users already read. */
  lemma UsersRoundTripAfter(command: byte, us: seq<UserRoles>, acc: seq<UserRoles>)
    requires forall k :: 0 <= k < |us| ==> Representable(us[k])
    ensures UsersFrom(UserBlocks(command, us), 0, acc) == Parsed(Some(0), acc + us)
  {
    var s := UserBlocks(command, us);
    assert s[0..] == s;
    BlocksAtOf(s, 0, command, us);
    UserBlocksRead(s, 0, command, us, acc);
  }

  /** A body that parses to status 0 after a proto word announcing its
      size is read whole, and the reading goes on after it. */
  lemma SizedBlockStep(input: seq<byte>, pos: nat, b: seq<byte>, acc: seq<UserRoles>, users: seq<UserRoles>)
    requires 0 < |b| && pos + 8 + |b| <= |input|
    requires ProtoSize(input[pos..pos + 8]) == |b| && input[pos + 8..pos + 8 + |b|] == b
    requires UsersFrom(b, 0, acc) == Parsed(Some(0), users)
    ensures BlockStep(input, pos, acc) == Next(pos + 8 + |b|, users)
  {
  }

  /** A block read whole leaves the reading at the next one. */
  lemma BlocksFromNext(input: seq<byte>, pos: nat, acc: seq<UserRoles>, q: nat, users: seq<UserRoles>)
    requires BlockStep(input, pos, acc) == Next(q, users)
    ensures BlocksFrom(input, pos, acc) == BlocksFrom(input, q, users)
  {
  }

  /** A framed body followed by the empty block: where each lies. */
  lemma FrameThenEnd(b: seq<byte>)
    requires |b| < 0x8000_0000
    ensures var input := Frame(b) + Frame([]);
      && |input| == 16 + |b|
      && ProtoSize(input[..8]) == |b| && input[8..8 + |b|] == b
      && ProtoSize(input[8 + |b|..16 + |b|]) == 0
  {
    var input := Frame(b) + Frame([]);
    FrameAnnounces(b);
    FrameAnnounces([]);
    SplitSuffix(input, 0, Frame(b), Frame([]));
    assert input[0..] == input;
    assert input[..8] == Frame(b)[..8];
    assert input[8..8 + |b|] == Frame(b)[8..];
    assert input[8 + |b|..16 + |b|] == Frame([]) == Frame([])[..8];
  }

  /** A block of size zero ends the reading with 0 and the users read so
      far. */
  lemma EndBlockStops(input: seq<byte>, pos: nat, acc: seq<UserRoles>)
    requires pos + 8 <= |input| && ProtoSize(input[pos..pos + 8]) == 0
    ensures BlocksFrom(input, pos, acc) == Parsed(Some(0), acc)
  {
  }

  /** A body announced by its proto word that parses to status 0 with the
      users given, then a block of size zero: the reading returns those
      users with status 0. */
  lemma SizedBodyRead(input: seq<byte>, b: seq<byte>, users: seq<UserRoles>)
    requires |input| == 16 + |b|
    requires ProtoSize(input[..8]) == |b| && input[8..8 + |b|] == b
    requires ProtoSize(input[8 + |b|..16 + |b|]) == 0
    requires UsersFrom(b, 0, []) == Parsed(Some(0), users)
    ensures ReadUsersSpec(input, []) == Parsed(Some(0), users)
  {
    if |b| == 0 {
      assert users == [];
      EndBlockStops(input, 0, []);
    } else {
      SizedBlockStep(input, 0, b, [], users);
      BlocksFromNext(input, 0, [], 8 + |b|, users);
      EndBlockStops(input, 8 + |b|, users);
    }
  }

  /** The users of a reply block written as the server writes it, closed
      by the empty block, read back in order with status 0. */
  lemma ReadFrameRoundTrip(command: byte, us: seq<UserRoles>)
    requires forall k :: 0 <= k < |us| ==> Representable(us[k])
    requires |UserBlocks(command, us)| < 0x8000_0000
    ensures ReadUsersSpec(Frame(UserBlocks(command, us)) + Frame([]), []) == Parsed(Some(0), us)
  {
    var b := UserBlocks(command, us);
    UsersRoundTripAfter(command, us, []);
    assert [] + us == us;
    FrameThenEnd(b);
    SizedBodyRead(Frame(b) + Frame([]), b, us);
  }

  /** aerospike_query_user: on success the first user read, if any; the
      others are dropped. */
  function QueryUserResult(status: int, users: seq<UserRoles>): (r: Option<UserRoles>)
    ensures r.Some? <==> status == 0 && |users| > 0
    ensures r.Some? ==> r.value == users[0]
  {
    if status == 0 then
      if |users| == 1 then Some(users[0])
      else if |users| <= 0 then None
      else Some(users[0])
    else None
  }

  /** The timeout the admin calls use: the policy's, or one minute when it
      is not positive. */
  function AdminTimeout(policyTimeout: int): (t: int)
    ensures t > 0
    ensures policyTimeout > 0 ==> t == policyTimeout
    ensures policyTimeout <= 0 ==> t == DEFAULT_TIMEOUT
  {
    if policyTimeout <= 0 then DEFAULT_TIMEOUT else policyTimeout
  }

  /** The timeout as_authenticate uses: one minute only for zero. */
  function AuthenticateTimeout(timeout: int): (t: int)
    ensures t != 0
    ensures timeout != 0 ==> t == timeout
  {
    if timeout == 0 then DEFAULT_TIMEOUT else timeout
  }

  /** What the steps of as_execute came to: whether a node was found, the
      connection status, whether the message went out, and the reply
      header when all of it arrived in time. */
  datatype Exchange = Exchange(node: bool, connection: int, sent: bool, reply: Option<seq<byte>>)

  /** as_execute's result: a client failure without a node, the
      connection's error, a timeout when sending or reading fails, and
      otherwise byte 9 of the 24-byte reply header. */
  function Execute(x: Exchange): (rc: int)
    requires x.reply.Some? ==> |x.reply.value| == HEADER_SIZE
    ensures !x.node ==> rc == FAIL_CLIENT
    ensures x.node && x.connection != 0 ==> rc == x.connection
    ensures x.node && x.connection == 0 && (!x.sent || x.reply.None?) ==> rc == FAIL_TIMEOUT
    ensures x.node && x.connection == 0 && x.sent && x.reply.Some? ==> rc == x.reply.value[RESULT_CODE] as int
  {
    if !x.node then FAIL_CLIENT
    else if x.connection != 0 then x.connection
    else if !x.sent then FAIL_TIMEOUT
    else if x.reply.None? then FAIL_TIMEOUT
    else x.reply.value[RESULT_CODE] as int
  }

  /** The result byte as_execute returns is the one as_parse_users checks:
      byte 1 of the header after the proto word. */
  lemma ExecuteReadsResultByte(proto: seq<byte>, header: seq<byte>)
    requires |proto| == 8 && |header| == HEADER_REMAINING
    ensures Execute(Exchange(true, 0, true, Some(proto + header))) == header[1] as int
  {
  }
}
