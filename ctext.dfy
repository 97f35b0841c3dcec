/** NUL-terminated character buffers as the C library sees them: strchr,
    strncmp against a literal, and atoi. A buffer is a seq<char>; the C
    string starting at index i runs up to the first NUL at or after i. */
module CText {
  import opened Wrappers

  const NUL: char := '\0'

  /** The first index at or after `from` holding NUL, or |s| if none. */
  function NulFrom(s: seq<char>, from: nat): (n: nat)
    requires from <= |s|
    ensures from <= n <= |s|
    ensures forall k :: from <= k < n ==> s[k] != NUL
    ensures n < |s| ==> s[n] == NUL
    decreases |s| - from
  {
    if from == |s| || s[from] == NUL then from else NulFrom(s, from + 1)
  }

  /** The C string starting at index i (without its terminator). */
  function CStr(s: seq<char>, i: nat): seq<char>
    requires i <= |s|
  {
    s[i..NulFrom(s, i)]
  }

  /** A NUL at n with none before it, from `from` on, is where the C string ends. */
  lemma {:induction false} NulFromAt(s: seq<char>, from: nat, n: nat)
    requires from <= n < |s| && s[n] == NUL
    requires forall k :: from <= k < n ==> s[k] != NUL
    ensures NulFrom(s, from) == n
    decreases n - from
  {
    if from < n {
      NulFromAt(s, from + 1, n);
    }
  }

  /** strchr(s + from, c) for a character c other than NUL: the first c
      before the string's terminator. */
  function Strchr(s: seq<char>, from: nat, c: char): (r: Option<nat>)
    requires from <= |s| && c != NUL
    ensures r.Some? ==> from <= r.value < |s| && s[r.value] == c
    ensures r.Some? ==> forall k :: from <= k < r.value ==> s[k] != c && s[k] != NUL
    decreases |s| - from
  {
    if from == |s| || s[from] == NUL then None
    else if s[from] == c then Some(from)
    else Strchr(s, from + 1, c)
  }

  /** A c at index i with neither c nor NUL before it is what strchr finds. */
  lemma {:induction false} StrchrFinds(s: seq<char>, from: nat, c: char, i: nat)
    requires from <= i < |s| && c != NUL && s[i] == c
    requires forall k :: from <= k < i ==> s[k] != c && s[k] != NUL
    ensures Strchr(s, from, c) == Some(i)
    decreases i - from
  {
    if from < i {
      StrchrFinds(s, from + 1, c, i);
    }
  }

  /** A NUL at index i with no c before it: strchr finds nothing. */
  lemma {:induction false} StrchrMisses(s: seq<char>, from: nat, c: char, i: nat)
    requires from <= i < |s| && c != NUL && s[i] == NUL
    requires forall k :: from <= k < i ==> s[k] != c
    ensures Strchr(s, from, c) == None
    decreases i - from
  {
    if from < i && s[from] != NUL {
      StrchrMisses(s, from + 1, c, i);
    }
  }

  /** strchr only looks at the C string: a buffer that agrees with another
      up to and including the terminator gives the same answer. */
  lemma {:induction false} StrchrLocal(s: seq<char>, t: seq<char>, from: nat, c: char, e: nat)
    requires from <= e < |s| && e < |t| && c != NUL
    requires s[e] == NUL && t[e] == NUL
    requires forall k :: from <= k < e ==> s[k] == t[k]
    ensures Strchr(s, from, c) == Strchr(t, from, c)
    decreases e - from
  {
    if from < e && s[from] != NUL && s[from] != c {
      StrchrLocal(s, t, from + 1, c, e);
    }
  }

  /** strncmp(s + p, lit, |lit|) == 0 for a literal without NUL: the
      characters from index p on spell lit. */
  predicate HasPrefixAt(s: seq<char>, p: nat, lit: seq<char>)
    decreases |lit|
  {
    |lit| == 0 || (p < |s| && s[p] == lit[0] && HasPrefixAt(s, p + 1, lit[1..]))
  }

  /** The characters from p on spell lit exactly when that slice is lit. */
  lemma {:induction false} HasPrefixAtSlice(s: seq<char>, p: nat, lit: seq<char>)
    requires p <= |s|
    ensures HasPrefixAt(s, p, lit) <==> p + |lit| <= |s| && s[p..p + |lit|] == lit
    decreases |lit|
  {
    if |lit| > 0 && p < |s| {
      HasPrefixAtSlice(s, p + 1, lit[1..]);
      assert p + 1 + |lit[1..]| == p + |lit|;
      if p + |lit| <= |s| {
        var w := s[p..p + |lit|];
        assert w[0] == s[p] && w[1..] == s[p + 1..p + |lit|];
        if w == lit {
          assert s[p] == lit[0] && s[p + 1..p + |lit|] == lit[1..];
        }
        if s[p] == lit[0] && s[p + 1..p + |lit|] == lit[1..] {
          assert w == [w[0]] + w[1..] && lit == [lit[0]] + lit[1..];
        }
      }
    }
  }

  /** A NUL-free field followed by a NUL is the C string where it starts. */
  lemma NulFromField(a: seq<char>, e: seq<char>, b: seq<char>)
    requires forall k :: 0 <= k < |e| ==> e[k] != NUL
    requires |b| > 0 && b[0] == NUL
    ensures NulFrom(a + e + b, |a|) == |a| + |e|
    ensures (a + e + b)[|a|..|a| + |e|] == e
  {
    var s := a + e + b;
    assert forall k :: |a| <= k < |a| + |e| ==> s[k] == e[k - |a|];
    NulFromAt(s, |a|, |a| + |e|);
    assert s[|a|..|a| + |e|] == e;
  }

  /** A literal placed between two texts is spelled where it starts. */
  lemma ConcatPrefix(a: seq<char>, lit: seq<char>, b: seq<char>)
    ensures HasPrefixAt(a + lit + b, |a|, lit)
  {
    var s := a + lit + b;
    assert s[|a|..|a| + |lit|] == lit;
    HasPrefixAtSlice(s, |a|, lit);
  }

  /** A key met first at the end of a, and the NUL-free field e after it
      up to the terminator that opens b: strstr finds the key after a, and
      the C string after the key is e. */
  lemma FieldAfterKey(a: seq<char>, key: seq<char>, e: seq<char>, b: seq<char>)
    requires |key| > 0 && key[0] != NUL
    requires forall k :: 0 <= k < |a| ==> a[k] != NUL && !HasPrefixAt(a + key + e + b, k, key)
    requires forall k :: 0 <= k < |e| ==> e[k] != NUL
    requires |b| > 0 && b[0] == NUL
    ensures var s := a + key + e + b;
      Strstr(s, 0, key) == Some(|a|) && NulFrom(s, |a| + |key|) == |a| + |key| + |e|
      && s[|a| + |key|..|a| + |key| + |e|] == e
  {
    var s := a + key + e + b;
    assert s == a + key + (e + b);
    ConcatPrefix(a, key, e + b);
    assert forall k :: 0 <= k < |a| ==> s[k] == a[k];
    StrstrFinds(s, 0, key, |a|);
    NulFromField(a + key, e, b);
  }

  /** A literal without NUL characters. */
  predicate NulFree(lit: seq<char>)
    decreases |lit|
  {
    |lit| == 0 || (lit[0] != NUL && NulFree(lit[1..]))
  }

  /** A NUL-free literal spelled inside the C string ends inside it. */
  lemma {:induction false} PrefixWithin(s: seq<char>, p: nat, lit: seq<char>)
    requires p <= |s| && NulFrom(s, p) < |s| && HasPrefixAt(s, p, lit) && NulFree(lit)
    ensures p + |lit| <= NulFrom(s, p)
    decreases |lit|
  {
    if |lit| > 0 {
      assert s[p] == lit[0] != NUL;
      PrefixWithin(s, p + 1, lit[1..]);
    }
  }

  /** strstr(s + from, lit) for a non-empty literal without NUL: the first
      occurrence that starts inside the C string. */
  function Strstr(s: seq<char>, from: nat, lit: seq<char>): (r: Option<nat>)
    requires from <= |s|
    ensures r.Some? ==> from <= r.value < NulFrom(s, from) && HasPrefixAt(s, r.value, lit)
    decreases |s| - from
  {
    if from == |s| || s[from] == NUL then None
    else if HasPrefixAt(s, from, lit) then Some(from)
    else Strstr(s, from + 1, lit)
  }

  /** An occurrence at i, inside the C string and with none before it, is
      what strstr finds. */
  lemma {:induction false} StrstrFinds(s: seq<char>, from: nat, lit: seq<char>, i: nat)
    requires from <= i < |s| && HasPrefixAt(s, i, lit) && |lit| > 0 && lit[0] != NUL
    requires forall k :: from <= k < i ==> s[k] != NUL && !HasPrefixAt(s, k, lit)
    ensures Strstr(s, from, lit) == Some(i)
    decreases i - from
  {
    assert s[i] == lit[0];
    if from < i {
      StrstrFinds(s, from + 1, lit, i);
    }
  }

  predicate IsSpace(c: char)
  {
    c == ' ' || c == '\t' || c == '\n' || c == '\U{0B}' || c == '\U{0C}' || c == '\r'
  }

  predicate IsDigit(c: char)
  {
    '0' <= c <= '9'
  }

  function DigitValue(c: char): nat
    requires IsDigit(c)
  {
    (c as int) - ('0' as int)
  }

  /** The value of the longest run of digits at the start of t, added to
      acc * 10^(run length). */
  function Digits(t: seq<char>, acc: int): int
  {
    if |t| > 0 && IsDigit(t[0]) then Digits(t[1..], acc * 10 + DigitValue(t[0])) else acc
  }

  function SkipSpaces(t: seq<char>): seq<char>
  {
    if |t| > 0 && IsSpace(t[0]) then SkipSpaces(t[1..]) else t
  }

  /** One more than INT_MAX: the values atoi can return lie below it. */
  const INT_LIMIT: nat := 0x8000_0000

  /** atoi on the C string t: leading white space, an optional sign, then
      decimal digits up to the first other character. */
  function Atoi(t: seq<char>): int
  {
    var u := SkipSpaces(t);
    if |u| > 0 && u[0] == '-' then -Digits(u[1..], 0)
    else if |u| > 0 && u[0] == '+' then Digits(u[1..], 0)
    else Digits(u, 0)
  }

  function DigitChar(d: nat): (c: char)
    requires d < 10
    ensures IsDigit(c) && DigitValue(c) == d
  {
    ('0' as int + d) as char
  }

  /** The decimal spelling of a positive number, as a server writes it. */
  function Decimal(n: nat): (s: seq<char>)
    requires n > 0
    ensures |s| > 0 && forall k :: 0 <= k < |s| ==> IsDigit(s[k])
  {
    if n < 10 then [DigitChar(n)] else Decimal(n / 10) + [DigitChar(n % 10)]
  }

  /** Reading a run of digits followed by more text: the digits are
      consumed first, and the text after them is read from their value. */
  lemma {:induction false} DigitsAppend(a: seq<char>, b: seq<char>, acc: int)
    requires forall k :: 0 <= k < |a| ==> IsDigit(a[k])
    ensures Digits(a + b, acc) == Digits(b, Digits(a, acc))
    decreases |a|
  {
    if |a| == 0 {
      assert a + b == b;
    } else {
      assert (a + b)[1..] == a[1..] + b;
      assert (a + b)[0] == a[0];
      DigitsAppend(a[1..], b, acc * 10 + DigitValue(a[0]));
    }
  }

  /** atoi reads back the decimal spelling of a positive int (beyond
      INT_MAX the C function's result is undefined). */
  lemma {:induction false} AtoiDecimal(n: nat, rest: seq<char>)
    requires 0 < n < INT_LIMIT
    requires rest == [] || !IsDigit(rest[0])
    ensures Atoi(Decimal(n) + rest) == n
  {
    DigitsDecimal(n, rest);
  }

  /** atoi reads back the decimal spelling of a positive int on its own. */
  lemma AtoiOfDecimal(n: nat)
    requires 0 < n < INT_LIMIT
    ensures Atoi(Decimal(n)) == n
  {
    assert Decimal(n) + [] == Decimal(n);
    AtoiDecimal(n, []);
  }

  lemma {:induction false} DigitsDecimal(n: nat, rest: seq<char>)
    requires n > 0
    requires rest == [] || !IsDigit(rest[0])
    ensures Digits(Decimal(n) + rest, 0) == n
    ensures SkipSpaces(Decimal(n) + rest) == Decimal(n) + rest
  {
    var d := Decimal(n);
    assert (d + rest)[0] == d[0];
    DigitsAppend(d, rest, 0);
    DigitsOnly(n);
  }

  lemma {:induction false} DigitsOnly(n: nat)
    requires n > 0
    ensures Digits(Decimal(n), 0) == n
  {
    if n >= 10 {
      DigitsOnly(n / 10);
      DigitsAppend(Decimal(n / 10), [DigitChar(n % 10)], 0);
    }
  }
}
