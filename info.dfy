/** The info protocol's text handling (cl_info.c): single-value extraction,
    error detection in a response, the request-name rewrite, and the rules
    by which a cluster-wide info call walks the nodes. The socket exchange
    is abstracted: one node's answer is a NodeReply. */
module Info {
  import opened Wrappers
  import opened CText
  import opened ResultCodes

  // ---------------------------------------------------------------------
  // strchr over a buffer
  // ---------------------------------------------------------------------

  /** strchr on the C string at `from`. */
  method FindChar(a: array<char>, from: nat, c: char) returns (r: Option<nat>)
    requires from <= a.Length && NulFrom(a[..], from) < a.Length && c != NUL
    ensures r == Strchr(a[..], from, c)
    ensures r.Some? ==> r.value < NulFrom(a[..], from)
  {
    ghost var s := a[..];
    ghost var e := NulFrom(s, from);
    var i := from;
    while a[i] != NUL && a[i] != c
      invariant from <= i <= e < a.Length
      invariant forall k :: from <= k < i ==> a[k] != c && a[k] != NUL
      decreases e - i
    {
      i := i + 1;
    }
    if a[i] == NUL {
      StrchrMisses(s, from, c, i);
      r := None;
    } else {
      StrchrFinds(s, from, c, i);
      r := Some(i);
    }
  }

  // ---------------------------------------------------------------------
  // citrusleaf_info_parse_single
  // ---------------------------------------------------------------------

  /** Extract the value of a one-line response "name\tvalue\n": the value
      starts after the first tab and is terminated in place at the next
      newline. -1 when there is no tab, or no newline after it. */
  method ParseSingle(values: array<char>) returns (rc: int, value: nat)
    requires NUL in values[..]
    modifies values
    ensures var s := old(values[..]);
      var t := Strchr(s, 0, '\t');
      (t.None? ==> rc == -1 && values[..] == s)
      && (t.Some? ==>
            value == t.value + 1
            && var n := Strchr(s, value, '\n');
               (n.None? ==> rc == -1 && values[..] == s)
               && (n.Some? ==> rc == 0 && values[..] == s[n.value := NUL]
                               && CStr(values[..], value) == s[value..n.value]))
  {
    ghost var s := values[..];
    ghost var e := NulFrom(s, 0);
    var i := 0;
    while values[i] != NUL && values[i] != '\t'
      invariant 0 <= i <= e < values.Length
      invariant forall k :: 0 <= k < i ==> values[k] != NUL && values[k] != '\t'
      decreases e - i
    {
      i := i + 1;
    }
    if values[i] == NUL {
      StrchrMisses(s, 0, '\t', i);
      return -1, 0;
    }
    StrchrFinds(s, 0, '\t', i);
    i := i + 1;
    value := i;
    while values[i] != NUL && values[i] != '\n'
      invariant value <= i <= e
      invariant forall k :: value <= k < i ==> values[k] != NUL && values[k] != '\n'
      decreases e - i
    {
      i := i + 1;
    }
    if values[i] == NUL {
      StrchrMisses(s, value, '\n', i);
      return -1, value;
    }
    StrchrFinds(s, value, '\n', i);
    values[i] := NUL;
    NulFromAt(values[..], value, i);
    rc := 0;
  }

  // ---------------------------------------------------------------------
  // citrusleaf_info_parse_error
  // ---------------------------------------------------------------------

  /** The outcome of decoding an error: the code, the index at which the
      message starts (None for a null message), and the buffer afterwards. */
  datatype ErrorParse = ErrorParse(rc: int, message: Option<nat>, buffer: seq<char>)

  /** Decode "<code>:<message>\n" at `begin`: the colon is overwritten with
      NUL, the code is read by atoi, and the message runs to the first
      newline, which is overwritten with NUL. No colon, or a code that reads
      as 0, gives FAIL_UNKNOWN with a null message. Never returns 0. */
  function ParseErrorSpec(s: seq<char>, begin: nat): (r: ErrorParse)
    requires begin <= |s|
    ensures r.rc != 0
    ensures |r.buffer| == |s|
    ensures r.message.None? ==> r.rc == FAIL_UNKNOWN
    ensures r.message.Some? ==> begin < r.message.value <= |s|
  {
    match Strchr(s, begin, ':')
    case None => ErrorParse(FAIL_UNKNOWN, None, s)
    case Some(c) =>
      var s1 := s[c := NUL];
      var code := Atoi(s[begin..c]);
      if code == 0 then ErrorParse(FAIL_UNKNOWN, None, s1)
      else
        var nl := Strchr(s1, c + 1, '\n');
        ErrorParse(code, Some(c + 1), if nl.Some? then s1[nl.value := NUL] else s1)
  }

  /** citrusleaf_info_parse_error on the buffer. */
  method ParseError(buf: array<char>, begin: nat) returns (rc: int, message: Option<nat>)
    requires begin <= buf.Length && NulFrom(buf[..], begin) < buf.Length
    modifies buf
    ensures ErrorParse(rc, message, buf[..]) == ParseErrorSpec(old(buf[..]), begin)
  {
    ghost var s := buf[..];
    ghost var e := NulFrom(s, begin);
    var colon := FindChar(buf, begin, ':');
    if colon.None? {
      return FAIL_UNKNOWN, None;
    }
    var c := colon.value;
    buf[c] := NUL;
    assert buf[begin..c] == s[begin..c];
    var code := Atoi(buf[begin..c]);
    if code == 0 {
      return FAIL_UNKNOWN, None;
    }
    NulFromAt(buf[..], c + 1, e);
    var nl := FindChar(buf, c + 1, '\n');
    if nl.Some? {
      buf[nl.value] := NUL;
    }
    rc, message := code, Some(c + 1);
  }

  /** A server error line "<code>:<message>\n" with a positive code and a
      message without newline or NUL decodes to that code and message. */
  lemma ParseErrorRoundTrip(pre: seq<char>, code: nat, msg: seq<char>, rest: seq<char>)
    requires 0 < code < INT_LIMIT
    requires forall k :: 0 <= k < |msg| ==> msg[k] != '\n' && msg[k] != NUL
    ensures var s := pre + Decimal(code) + [':'] + msg + ['\n'] + rest;
      var r := ParseErrorSpec(s, |pre|);
      r.rc == code && r.message == Some(|pre| + |Decimal(code)| + 1)
      && CStr(r.buffer, r.message.value) == msg
  {
    AtoiOfDecimal(code);
    ParseErrorText(pre, Decimal(code), code, msg, rest);
  }

  /** The same for any run of digits that atoi reads as the code. */
  lemma ParseErrorText(pre: seq<char>, d: seq<char>, code: int, msg: seq<char>, rest: seq<char>)
    requires forall k :: 0 <= k < |d| ==> IsDigit(d[k])
    requires code != 0 && -0x8000_0000 <= code < INT_LIMIT && Atoi(d) == code
    requires forall k :: 0 <= k < |msg| ==> msg[k] != '\n' && msg[k] != NUL
    ensures var s := pre + d + [':'] + msg + ['\n'] + rest;
      var r := ParseErrorSpec(s, |pre|);
      r.rc == code && r.message == Some(|pre| + |d| + 1)
      && CStr(r.buffer, r.message.value) == msg
  {
    ErrorLineLayout(pre, d, msg, rest);
    ParseErrorLine(pre + d + [':'] + msg + ['\n'] + rest, |pre|, d, code, msg);
  }

  /** An error line laid out in s from b: digits that atoi reads as the
      code, a colon, the message and a newline. */
  lemma ParseErrorLine(s: seq<char>, b: nat, d: seq<char>, code: int, msg: seq<char>)
    requires forall k :: 0 <= k < |d| ==> IsDigit(d[k])
    requires code != 0 && Atoi(d) == code
    requires forall k :: 0 <= k < |msg| ==> msg[k] != '\n' && msg[k] != NUL
    requires b + |d| + 1 + |msg| < |s| && s[b..b + |d|] == d && s[b + |d|] == ':'
    requires s[b + |d| + 1..b + |d| + 1 + |msg|] == msg && s[b + |d| + 1 + |msg|] == '\n'
    ensures var r := ParseErrorSpec(s, b);
      r.rc == code && r.message == Some(b + |d| + 1) && CStr(r.buffer, r.message.value) == msg
  {
    var c := b + |d|;
    CodeField(s, b, d);
    var s1 := s[c := NUL];
    var n := c + 1 + |msg|;
    UpdateBefore(s, c, c + 1, msg);
    MessageField(s1, c + 1, msg);
    ParseErrorAt(s, b, c, n, code, msg);
  }

  /** citrusleaf_info_parse_error once the colon, the code and the newline
      have been found. */
  lemma ParseErrorAt(s: seq<char>, b: nat, c: nat, n: nat, code: int, msg: seq<char>)
    requires b <= c < n < |s| && Strchr(s, b, ':') == Some(c)
    requires code != 0 && Atoi(s[b..c]) == code
    requires Strchr(s[c := NUL], c + 1, '\n') == Some(n)
    requires CStr(s[c := NUL][n := NUL], c + 1) == msg
    ensures var r := ParseErrorSpec(s, b);
      r.rc == code && r.message == Some(c + 1) && CStr(r.buffer, c + 1) == msg
  {
  }

  /** Overwriting a cell before a window leaves the window as it was. */
  lemma UpdateBefore(s: seq<char>, c: nat, m: nat, w: seq<char>)
    requires c < m && m + |w| < |s| && s[m..m + |w|] == w
    ensures s[c := NUL][m..m + |w|] == w && s[c := NUL][m + |w|] == s[m + |w|]
  {
    assert s[c := NUL][m..m + |w|] == s[m..m + |w|];
  }

  /** Where the code, the colon, the message and the newline of an error
      line lie. */
  lemma ErrorLineLayout(pre: seq<char>, d: seq<char>, msg: seq<char>, rest: seq<char>)
    ensures var s := pre + d + [':'] + msg + ['\n'] + rest;
      var c := |pre| + |d|;
      && c + 1 + |msg| < |s| && s[|pre|..c] == d && s[c] == ':'
      && s[c + 1..c + 1 + |msg|] == msg && s[c + 1 + |msg|] == '\n'
  {
    var s := pre + d + [':'] + msg + ['\n'] + rest;
    assert s == pre + d + ([':'] + msg + ['\n'] + rest);
    assert s == (pre + d + [':']) + msg + (['\n'] + rest);
  }

  /** Digits followed by a colon at b are found up to the colon. */
  lemma CodeField(s: seq<char>, b: nat, d: seq<char>)
    requires forall k :: 0 <= k < |d| ==> IsDigit(d[k])
    requires b + |d| < |s| && s[b..b + |d|] == d && s[b + |d|] == ':'
    ensures Strchr(s, b, ':') == Some(b + |d|)
  {
    forall k | b <= k < b + |d|
      ensures s[k] != ':' && s[k] != NUL
    {
      assert s[k] == d[k - b];
    }
    StrchrFinds(s, b, ':', b + |d|);
  }

  /** A message followed by a newline at m is found, and once the newline
      is overwritten with NUL it reads as a C string. */
  lemma MessageField(s: seq<char>, m: nat, msg: seq<char>)
    requires m + |msg| < |s| && s[m..m + |msg|] == msg && s[m + |msg|] == '\n'
    requires forall k :: 0 <= k < |msg| ==> msg[k] != '\n' && msg[k] != NUL
    ensures Strchr(s, m, '\n') == Some(m + |msg|)
    ensures CStr(s[m + |msg| := NUL], m) == msg
  {
    var n := m + |msg|;
    forall k | m <= k < n
      ensures s[k] != '\n' && s[k] != NUL
    {
      assert s[k] == msg[k - m];
    }
    StrchrFinds(s, m, '\n', n);
    var s2 := s[n := NUL];
    NulFromAt(s2, m, n);
    assert s2[m..n] == msg;
  }

  // ---------------------------------------------------------------------
  // citrusleaf_info_validate
  // ---------------------------------------------------------------------

  /** An error marker found in a response: the index after "ERROR:" or
      "FAIL:" where the code starts, or the index of "error=". */
  datatype Marker = ErrorAt(p: nat) | FailAt(p: nat) | UdfErrorAt(p: nat)

  /** The marker, if any, that starts at index p (just after a tab). */
  function MarkerAt(s: seq<char>, p: nat): (r: Option<Marker>)
    ensures r.Some? ==> r.value.p <= |s|
    ensures r.Some? && r.value.UdfErrorAt? ==> r.value.p + 6 <= |s|
  {
    if HasPrefixAt(s, p, "ERROR:") then Some(ErrorAt(p + 6))
    else if HasPrefixAt(s, p, "FAIL:") then Some(FailAt(p + 5))
    else if HasPrefixAt(s, p, "error=") then Some(UdfErrorAt(p))
    else None
  }

  /** The markers after tabs, from index `from` on: the first tab followed
      by one of them decides; tabs followed by anything else are skipped. */
  function ScanTabs(s: seq<char>, from: nat): (r: Option<Marker>)
    requires from <= |s|
    ensures r.Some? ==> r.value.p <= |s|
    decreases |s| - from
  {
    match Strchr(s, from, '\t')
    case None => None
    case Some(t) =>
      if MarkerAt(s, t + 1).Some? then MarkerAt(s, t + 1) else ScanTabs(s, t + 1)
  }

  /** One step of the tab scan from `from`, given what strchr found there. */
  lemma ScanTabsStep(s: seq<char>, from: nat, t: Option<nat>)
    requires from <= |s| && Strchr(s, from, '\t') == t
    ensures t.None? ==> ScanTabs(s, from) == None
    ensures t.Some? ==> t.value + 1 <= |s|
    ensures t.Some? ==> ScanTabs(s, from) == (if MarkerAt(s, t.value + 1).Some? then MarkerAt(s, t.value + 1) else ScanTabs(s, t.value + 1))
  {
  }

  /** A UDF marker the tab scan reports has the whole "error=" in the buffer. */
  lemma {:induction false} ScanTabsUdfBound(s: seq<char>, from: nat)
    requires from <= |s|
    ensures var r := ScanTabs(s, from); r.Some? && r.value.UdfErrorAt? ==> r.value.p + 6 <= |s|
    decreases |s| - from
  {
    match Strchr(s, from, '\t')
    case None =>
    case Some(t) =>
      if MarkerAt(s, t + 1).None? {
        ScanTabsUdfBound(s, t + 1);
      }
  }

  /** The marker that decides a response: "ERROR:" at its very start, or
      the first one after a tab. */
  function FindMarker(s: seq<char>): (r: Option<Marker>)
    ensures r.Some? ==> r.value.p <= |s|
    ensures r.Some? && r.value.UdfErrorAt? ==> r.value.p + 6 <= |s|
  {
    ScanTabsUdfBound(s, 0);
    if HasPrefixAt(s, 0, "ERROR:") then Some(ErrorAt(6)) else ScanTabs(s, 0)
  }

  /** A base64 decoder, as cf_b64_validate_and_decode_in_place: None when
      the text is not valid base64. Its output is never longer than its
      input, which is what lets it decode in place. */
  type Decoder = seq<char> -> Option<seq<char>>

  ghost predicate InPlace(decode: Decoder)
  {
    forall t :: decode(t).Some? ==> |decode(t).value| <= |t|
  }

  /** citrusleaf_info_decode_error: in a UDF error
      "<text>;file=<f>;line=<n>;message=<base64>\n" the base64 message,
      less its last character (the newline), is replaced in place by its
      decoding and terminated with NUL. A message that does not decode
      leaves the buffer as it was. For an empty message the source hands
      the decoder the length strlen - 1 computed in 32 unsigned bits, that
      is 2^32 - 1; the decoder is not part of this model, which leaves the
      buffer as it was in that case too. */
  function DecodeErrorSpec(s: seq<char>, begin: nat, decode: Decoder): (r: seq<char>)
    requires begin <= |s| && InPlace(decode)
    ensures |r| == |s|
  {
    match Strstr(s, begin, "message=")
    case None => s
    case Some(m) => DecodeMessage(s, m + 8, decode)
  }

  /** The decoding of the message field that starts at index msg. */
  function DecodeMessage(s: seq<char>, msg: nat, decode: Decoder): (r: seq<char>)
    requires msg <= |s| && InPlace(decode)
    ensures |r| == |s|
  {
    var n := NulFrom(s, msg);
    if n == msg then s
    else
      match decode(s[msg..n - 1])
      case None => s
      case Some(d) => Overwrite(s, msg, d)
  }

  /** s with d written at index `at`, followed by a NUL. */
  function Overwrite(s: seq<char>, at: nat, d: seq<char>): (r: seq<char>)
    requires at + |d| < |s|
    ensures |r| == |s|
    decreases |d|
  {
    if |d| == 0 then s[at := NUL] else Overwrite(s[at := d[0]], at + 1, d[1..])
  }

  /** Overwrite changes exactly the |d| + 1 cells from `at` on. */
  lemma {:induction false} OverwriteAt(s: seq<char>, at: nat, d: seq<char>)
    requires at + |d| < |s|
    ensures forall k :: 0 <= k < |s| ==>
              Overwrite(s, at, d)[k] == (if at <= k < at + |d| then d[k - at] else if k == at + |d| then NUL else s[k])
    decreases |d|
  {
    if |d| > 0 {
      OverwriteAt(s[at := d[0]], at + 1, d[1..]);
    }
  }

  /** A UDF error whose message field decodes to NUL-free text reads, from
      the field on, as that text. */
  lemma DecodeErrorRoundTrip(s: seq<char>, pre: seq<char>, enc: seq<char>, rest: seq<char>, decode: Decoder)
    requires s == pre + "message=" + (enc + "\n") + rest
    requires InPlace(decode) && decode(enc).Some? && NUL !in decode(enc).value
    requires forall k :: 0 <= k < |pre| ==> pre[k] != NUL && !HasPrefixAt(s, k, "message=")
    requires forall k :: 0 <= k < |enc| ==> enc[k] != NUL
    requires |rest| > 0 && rest[0] == NUL
    ensures CStr(DecodeErrorSpec(s, 0, decode), |pre| + 8) == decode(enc).value
  {
    var field := enc + "\n";
    assert forall k :: 0 <= k < |field| ==> field[k] != NUL;
    FieldAfterKey(pre, "message=", field, rest);
    FieldText(s, |pre| + 8, enc);
    DecodeErrorAt(s, |pre|, enc, decode);
  }

  /** A window holding a line holds its text without the newline. */
  lemma FieldText(s: seq<char>, i: nat, t: seq<char>)
    requires i + |t + "\n"| <= |s| && s[i..i + |t + "\n"|] == t + "\n"
    ensures s[i..i + |t|] == t
  {
    assert s[i..i + |t|] == (t + "\n")[..|t|];
  }

  /** The message field found by strstr at m, holding enc and a last
      character up to its terminator, is replaced by enc's NUL-free decoding. */
  lemma DecodeErrorAt(s: seq<char>, m: nat, enc: seq<char>, decode: Decoder)
    requires Strstr(s, 0, "message=") == Some(m) && m + 8 + |enc| + 1 < |s|
    requires NulFrom(s, m + 8) == m + 8 + |enc| + 1 && s[m + 8..m + 8 + |enc|] == enc
    requires InPlace(decode) && decode(enc).Some? && NUL !in decode(enc).value
    ensures CStr(DecodeErrorSpec(s, 0, decode), m + 8) == decode(enc).value
  {
    DecodeMessageRoundTrip(s, m + 8, m + 8 + |enc| + 1, decode);
  }

  /** The message field from msg to the terminator at n, less its last
      character, is replaced by its NUL-free decoding. */
  lemma DecodeMessageRoundTrip(s: seq<char>, msg: nat, n: nat, decode: Decoder)
    requires msg < n < |s| && NulFrom(s, msg) == n && InPlace(decode)
    requires decode(s[msg..n - 1]).Some?
    requires NUL !in decode(s[msg..n - 1]).value
    ensures CStr(DecodeMessage(s, msg, decode), msg) == decode(s[msg..n - 1]).value
  {
    var d := decode(s[msg..n - 1]).value;
    assert DecodeMessage(s, msg, decode) == Overwrite(s, msg, d);
    OverwriteText(s, msg, d);
  }

  /** Text written by Overwrite reads back as a C string. */
  lemma OverwriteText(s: seq<char>, at: nat, d: seq<char>)
    requires at + |d| < |s| && NUL !in d
    ensures CStr(Overwrite(s, at, d), at) == d
  {
    var r := Overwrite(s, at, d);
    OverwriteAt(s, at, d);
    assert forall k :: 0 <= k < |d| ==> d[k] != NUL;
    NulFromAt(r, at, at + |d|);
    assert r[at..at + |d|] == d;
  }

  /** What validation reports for a (non-null) response; `prior` is the
      caller's message slot, untouched when there is no error. */
  function ValidateSpec(s: seq<char>, prior: Option<nat>, decode: Decoder): (r: ErrorParse)
    requires InPlace(decode)
    ensures r.rc == 0 <==> FindMarker(s).None?
    ensures r.rc == 0 ==> r.message == prior && r.buffer == s
    ensures (FindMarker(s).Some? && FindMarker(s).value.UdfErrorAt?) ==>
              r.rc == FAIL_UDF_BAD_RESPONSE && r.message == Some(FindMarker(s).value.p)
  {
    match FindMarker(s)
    case None => ErrorParse(0, prior, s)
    case Some(ErrorAt(q)) => ParseErrorSpec(s, q)
    case Some(FailAt(q)) => ParseErrorSpec(s, q)
    case Some(UdfErrorAt(p)) =>
      ErrorParse(FAIL_UDF_BAD_RESPONSE, Some(p), DecodeErrorSpec(s, p + 6, decode))
  }

  /** strstr on the C string at `from`. */
  method FindText(a: array<char>, from: nat, lit: seq<char>) returns (r: Option<nat>)
    requires from <= NulFrom(a[..], 0) < a.Length
    ensures r == Strstr(a[..], from, lit)
  {
    ghost var e := NulFrom(a[..], 0);
    var i := from;
    while true
      invariant from <= i <= e
      invariant Strstr(a[..], i, lit) == Strstr(a[..], from, lit)
      decreases e - i
    {
      if a[i] == NUL {
        return None;
      }
      var here := StrNCmp(a, i, lit);
      if here {
        return Some(i);
      }
      i := i + 1;
    }
  }

  /** strlen of the C string at `from`. */
  method StrLen(a: array<char>, from: nat) returns (n: nat)
    requires from <= NulFrom(a[..], 0) < a.Length
    ensures from + n == NulFrom(a[..], from)
  {
    ghost var e := NulFrom(a[..], 0);
    var i := from;
    while a[i] != NUL
      invariant from <= i <= e
      invariant forall k :: from <= k < i ==> a[k] != NUL
      decreases e - i
    {
      i := i + 1;
    }
    NulFromAt(a[..], from, i);
    n := i - from;
  }

  /** The in-place write of a decoded message at index msg, with its NUL. */
  method CopyDecoded(buf: array<char>, msg: nat, d: seq<char>)
    requires msg + |d| < buf.Length
    modifies buf
    ensures buf[..] == Overwrite(old(buf[..]), msg, d)
  {
    ghost var s := buf[..];
    var j := 0;
    while j < |d|
      invariant 0 <= j <= |d|
      invariant forall k :: 0 <= k < buf.Length ==> buf[k] == if msg <= k < msg + j then d[k - msg] else s[k]
    {
      buf[msg + j] := d[j];
      j := j + 1;
    }
    buf[msg + |d|] := NUL;
    OverwriteAt(s, msg, d);
    assert buf[..] == Overwrite(s, msg, d);
  }

  /** citrusleaf_info_decode_error on the buffer. */
  method DecodeError(buf: array<char>, begin: nat, decode: Decoder)
    requires begin <= NulFrom(buf[..], 0) < buf.Length && InPlace(decode)
    modifies buf
    ensures buf[..] == DecodeErrorSpec(old(buf[..]), begin, decode)
  {
    ghost var s := buf[..];
    var found := FindText(buf, begin, "message=");
    if found.None? {
      assert DecodeErrorSpec(s, begin, decode) == s;
      return;
    }
    MessageKeyWithin(s, begin, found.value);
    assert DecodeErrorSpec(s, begin, decode) == DecodeMessage(s, found.value + 8, decode);
    DecodeMessageIn(buf, found.value + 8, decode);
  }

  /** The key strstr finds in the C string ends inside it. */
  lemma MessageKeyWithin(s: seq<char>, begin: nat, f: nat)
    requires begin <= NulFrom(s, 0) < |s| && Strstr(s, begin, "message=") == Some(f)
    ensures f + 8 <= NulFrom(s, 0)
  {
    var e := NulFrom(s, 0);
    NulFromAt(s, begin, e);
    forall k | f <= k < f + 8
      ensures s[k] != NUL
    {
      assert s[k] == "message="[k - f];
    }
  }

  /** The decoding of the message field at index msg, on the buffer. */
  method DecodeMessageIn(buf: array<char>, msg: nat, decode: Decoder)
    requires msg <= NulFrom(buf[..], 0) < buf.Length && InPlace(decode)
    modifies buf
    ensures buf[..] == DecodeMessage(old(buf[..]), msg, decode)
  {
    ghost var s := buf[..];
    var len := StrLen(buf, msg);
    if len == 0 {
      assert DecodeMessage(s, msg, decode) == s;
      return;
    }
    ghost var field := s[msg..NulFrom(s, msg) - 1];
    assert buf[msg..msg + len - 1] == field;
    var decoded := decode(buf[msg..msg + len - 1]);
    if decoded.None? {
      assert DecodeMessage(s, msg, decode) == s;
      return;
    }
    assert DecodeMessage(s, msg, decode) == Overwrite(s, msg, decoded.value);
    CopyDecoded(buf, msg, decoded.value);
  }

  /** strncmp against a literal at index p of the buffer. */
  method StrNCmp(a: array<char>, p: nat, lit: seq<char>) returns (equal: bool)
    ensures equal == HasPrefixAt(a[..], p, lit)
  {
    var k := 0;
    while k < |lit| && p + k < a.Length && a[p + k] == lit[k]
      invariant 0 <= k <= |lit|
      invariant HasPrefixAt(a[..], p, lit) == HasPrefixAt(a[..], p + k, lit[k..])
    {
      assert lit[k..][1..] == lit[k + 1..];
      k := k + 1;
    }
    equal := k == |lit|;
  }

  /** The prefix comparisons at index p of the response. */
  method MarkerIn(response: array<char>, p: nat) returns (m: Option<Marker>)
    ensures m == MarkerAt(response[..], p)
  {
    var error := StrNCmp(response, p, "ERROR:");
    if error {
      return Some(ErrorAt(p + 6));
    }
    var fail := StrNCmp(response, p, "FAIL:");
    if fail {
      return Some(FailAt(p + 5));
    }
    var udf := StrNCmp(response, p, "error=");
    if udf {
      return Some(UdfErrorAt(p));
    }
    m := None;
  }

  /** A marker that starts inside the C string ends inside it. */
  lemma MarkerWithin(s: seq<char>, p: nat)
    requires p <= NulFrom(s, 0) < |s|
    ensures var m := MarkerAt(s, p);
      m.Some? ==> m.value.p <= NulFrom(s, 0) && (m.value.UdfErrorAt? ==> m.value.p + 6 <= NulFrom(s, 0))
  {
    MarkersNulFree();
    if HasPrefixAt(s, p, "ERROR:") {
      LiteralWithin(s, p, "ERROR:");
    } else if HasPrefixAt(s, p, "FAIL:") {
      LiteralWithin(s, p, "FAIL:");
    } else if HasPrefixAt(s, p, "error=") {
      LiteralWithin(s, p, "error=");
    }
  }

  lemma MarkersNulFree()
    ensures NulFree("ERROR:") && NulFree("FAIL:") && NulFree("error=")
  {
  }

  lemma LiteralWithin(s: seq<char>, p: nat, lit: seq<char>)
    requires p <= NulFrom(s, 0) < |s| && HasPrefixAt(s, p, lit) && NulFree(lit)
    ensures p + |lit| <= NulFrom(s, 0)
  {
    NulFromAt(s, p, NulFrom(s, 0));
    PrefixWithin(s, p, lit);
  }

  /** Every marker the tab scan reports lies inside the C string. */
  lemma {:induction false} ScanTabsWithin(s: seq<char>, from: nat)
    requires from <= NulFrom(s, 0) < |s|
    ensures var m := ScanTabs(s, from);
      m.Some? ==> m.value.p <= NulFrom(s, 0) && (m.value.UdfErrorAt? ==> m.value.p + 6 <= NulFrom(s, 0))
    decreases |s| - from
  {
    match Strchr(s, from, '\t')
    case None =>
    case Some(t) =>
      var e := NulFrom(s, 0);
      assert t < e;
      MarkerWithin(s, t + 1);
      if MarkerAt(s, t + 1).None? {
        ScanTabsWithin(s, t + 1);
      }
  }

  /** Every marker that decides a response lies inside its C string. */
  lemma FindMarkerWithin(s: seq<char>)
    requires NulFrom(s, 0) < |s|
    ensures var m := FindMarker(s);
      m.Some? ==> m.value.p <= NulFrom(s, 0) && (m.value.UdfErrorAt? ==> m.value.p + 6 <= NulFrom(s, 0))
  {
    MarkerWithin(s, 0);
    ScanTabsWithin(s, 0);
  }

  /** One round of the validate loop from index p: the next tab, and the
      marker after it if there is one; `next` is where to go on from. */
  method TabStep(response: array<char>, p: nat) returns (next: Option<nat>, m: Option<Marker>)
    requires p <= NulFrom(response[..], 0) < response.Length
    ensures next.Some? ==> p < next.value <= NulFrom(response[..], 0) && m.None?
    ensures ScanTabs(response[..], p) == if next.None? then m else ScanTabs(response[..], next.value)
  {
    ghost var s := response[..];
    ghost var e := NulFrom(s, 0);
    NulFromAt(s, p, e);
    var t := FindChar(response, p, '\t');
    ScanTabsStep(s, p, t);
    if t.None? {
      return None, None;
    }
    m := MarkerIn(response, t.value + 1);
    if m.Some? {
      return None, m;
    }
    next := Some(t.value + 1);
  }

  /** The loop of citrusleaf_info_validate: from tab to tab until one is
      followed by a marker or the string ends. */
  method ScanTabsIn(response: array<char>, from: nat) returns (m: Option<Marker>)
    requires from <= NulFrom(response[..], 0) < response.Length
    ensures m == ScanTabs(response[..], from)
  {
    ghost var e := NulFrom(response[..], 0);
    var p := from;
    while true
      invariant from <= p <= e
      invariant ScanTabs(response[..], p) == ScanTabs(response[..], from)
      decreases e - p
    {
      var next;
      next, m := TabStep(response, p);
      if next.None? {
        return;
      }
      p := next.value;
    }
  }

  /** The scan of citrusleaf_info_validate: "ERROR:" at the start, then
      any marker after a tab of the response's C string. */
  method ScanResponse(response: array<char>) returns (m: Option<Marker>)
    requires NulFrom(response[..], 0) < response.Length
    ensures m == FindMarker(response[..])
  {
    m := MarkerIn(response, 0);
    if !(m.Some? && m.value.ErrorAt?) {
      m := ScanTabsIn(response, 0);
    }
  }

  /** ValidateSpec when the marker is "error=" at p. */
  lemma ValidateSpecUdf(s: seq<char>, prior: Option<nat>, decode: Decoder, p: nat)
    requires InPlace(decode) && FindMarker(s) == Some(UdfErrorAt(p))
    ensures p + 6 <= |s|
    ensures ValidateSpec(s, prior, decode) == ErrorParse(FAIL_UDF_BAD_RESPONSE, Some(p), DecodeErrorSpec(s, p + 6, decode))
  {
  }

  /** ValidateSpec when the marker is "ERROR:" or "FAIL:", ending at q. */
  lemma ValidateSpecParse(s: seq<char>, prior: Option<nat>, decode: Decoder, q: nat)
    requires InPlace(decode) && (FindMarker(s) == Some(ErrorAt(q)) || FindMarker(s) == Some(FailAt(q)))
    ensures q <= |s| && ValidateSpec(s, prior, decode) == ParseErrorSpec(s, q)
  {
  }

  /** citrusleaf_info_validate: a null response, or one without a marker,
      is valid (0). */
  method Validate(response: array?<char>, prior: Option<nat>, decode: Decoder) returns (rc: int, message: Option<nat>)
    requires response != null ==> NulFrom(response[..], 0) < response.Length
    requires InPlace(decode)
    modifies response
    ensures response == null ==> rc == 0 && message == prior
    ensures response != null ==>
              ErrorParse(rc, message, response[..]) == ValidateSpec(old(response[..]), prior, decode)
  {
    if response == null {
      return 0, prior;
    }
    ghost var s := response[..];
    ghost var e := NulFrom(s, 0);
    var m := ScanResponse(response);
    FindMarkerWithin(s);
    if m.None? {
      return 0, prior;
    }
    var q := m.value.p;
    if m.value.UdfErrorAt? {
      rc, message := ValidateUdf(response, q, prior, decode);
    } else {
      ValidateSpecParse(s, prior, decode, q);
      NulFromAt(s, q, e);
      rc, message := ParseError(response, q);
    }
  }

  /** The "error=" branch of citrusleaf_info_validate: the message field is
      decoded in place and the marker's index is the message. */
  method ValidateUdf(response: array<char>, q: nat, prior: Option<nat>, decode: Decoder) returns (rc: int, message: Option<nat>)
    requires q + 6 <= NulFrom(response[..], 0) < response.Length && InPlace(decode)
    requires FindMarker(response[..]) == Some(UdfErrorAt(q))
    modifies response
    ensures ErrorParse(rc, message, response[..]) == ValidateSpec(old(response[..]), prior, decode)
  {
    ValidateSpecUdf(response[..], prior, decode, q);
    DecodeError(response, q + 6, decode);
    return FAIL_UDF_BAD_RESPONSE, Some(q);
  }

  /** A response that opens with a server error line reports that line's
      code and message. */
  lemma ValidateLeadingError(code: nat, msg: seq<char>, rest: seq<char>, decode: Decoder)
    requires 0 < code < INT_LIMIT && InPlace(decode)
    requires forall k :: 0 <= k < |msg| ==> msg[k] != '\n' && msg[k] != NUL
    ensures var s := "ERROR:" + Decimal(code) + [':'] + msg + ['\n'] + rest;
      var r := ValidateSpec(s, None, decode);
      r.rc == code && r.message.Some? && CStr(r.buffer, r.message.value) == msg
  {
    var s := "ERROR:" + Decimal(code) + [':'] + msg + ['\n'] + rest;
    assert s[0..6] == "ERROR:";
    HasPrefixAtSlice(s, 0, "ERROR:");
    assert FindMarker(s) == Some(ErrorAt(6));
    ValidateSpecParse(s, None, decode, 6);
    ParseErrorRoundTrip("ERROR:", code, msg, rest);
  }

  // ---------------------------------------------------------------------
  // The request-name handling of citrusleaf_info_host_limit
  // ---------------------------------------------------------------------

  /** The info request buffer size; with bounds checking, longer commands
      are refused. */
  const InfoBufferSize: nat := 2048

  function RewriteChar(c: char): char
  {
    if c == ';' || c == ':' || c == ',' then '\n' else c
  }

  /** Every ';', ':' and ',' turned into a newline, nothing else changed. */
  function Rewrite(s: seq<char>): (r: seq<char>)
    ensures |r| == |s|
    ensures forall k :: 0 <= k < |s| ==> r[k] == RewriteChar(s[k])
  {
    seq(|s|, k requires 0 <= k < |s| => RewriteChar(s[k]))
  }

  predicate EndsWithNewline(s: seq<char>)
  {
    |s| > 0 && s[|s| - 1] == '\n'
  }

  /** The command with a trailing newline added when it lacks one. */
  function Terminated(s: seq<char>): (r: seq<char>)
  {
    if EndsWithNewline(s) then s else s + ['\n']
  }

  /** The terminator rule as the code reads it: the character inspected is
      names[slen - 1], which for an empty command, slen being an unsigned
      32-bit count, is the `stray` byte 2^32 - 1 places past the buffer. */
  function TerminatedAsWritten(s: seq<char>, stray: char): (r: seq<char>)
  {
    if |s| == 0 then (if stray == '\n' then s else ['\n'])
    else Terminated(s)
  }

  /** The code as written sends an empty command without a terminator when
      the stray byte it reads happens to be a newline. */
  lemma EmptyCommandAsWritten()
    ensures TerminatedAsWritten([], '\n') == []
    ensures !EndsWithNewline(TerminatedAsWritten([], '\n'))
  {
  }

  /** The intended rule: every command is sent newline-terminated, the
      command itself is kept as its prefix, and terminating twice changes
      nothing. */
  lemma {:induction false} TerminatedProperties(s: seq<char>)
    ensures EndsWithNewline(Terminated(s))
    ensures Terminated(s)[..|s|] == s
    ensures |Terminated(s)| == (if EndsWithNewline(s) then |s| else |s| + 1)
    ensures Terminated(Terminated(s)) == Terminated(s)
  {
    if !EndsWithNewline(s) {
      assert (s + ['\n'])[..|s|] == s;
    }
  }

  /** Rewriting is idempotent, and a rewritten command holds none of the
      three separators. */
  lemma {:induction false} RewriteProperties(s: seq<char>)
    ensures Rewrite(Rewrite(s)) == Rewrite(s)
    ensures forall k :: 0 <= k < |s| ==> Rewrite(s)[k] != ';' && Rewrite(s)[k] != ':' && Rewrite(s)[k] != ','
  {
    assert forall k :: 0 <= k < |s| ==> Rewrite(Rewrite(s))[k] == Rewrite(s)[k];
  }

  /** The request body the host call sends, and whether bounds checking
      refuses it (-1). A null `names` sends an empty body. Unless
      `sendAsis`, the names are rewritten in place first. */
  method PrepareCommand(names: array?<char>, sendAsis: bool, checkBounds: bool) returns (rc: int, command: seq<char>)
    requires names != null ==> NUL in names[..]
    modifies names
    ensures names == null ==> rc == 0 && command == []
    ensures names != null ==>
      var s := old(names[..]);
      var n := NulFrom(s, 0);
      var body := if sendAsis then s[..n] else Rewrite(s[..n]);
      names[..] == body + s[n..]
      && (rc == -1 <==> checkBounds && !EndsWithNewline(body) && |body| + 1 > InfoBufferSize)
      && (rc != -1 ==> rc == 0 && command == Terminated(body))
  {
    if names == null {
      return 0, [];
    }
    ghost var s := names[..];
    ghost var n := NulFrom(s, 0);
    var slen := 0;
    while names[slen] != NUL
      invariant 0 <= slen <= n < names.Length
      invariant names.Length == |s|
      invariant forall k :: 0 <= k < slen ==> names[k] == if sendAsis then s[k] else RewriteChar(s[k])
      invariant forall k :: slen <= k < names.Length ==> names[k] == s[k]
      decreases n - slen
    {
      if !sendAsis {
        names[slen] := RewriteChar(names[slen]);
      }
      slen := slen + 1;
    }
    assert slen == n;
    ghost var body := if sendAsis then s[..n] else Rewrite(s[..n]);
    assert names[..slen] == body;
    assert names[..] == body + s[n..];
    if slen > 0 && names[slen - 1] == '\n' {
      command := names[..slen];
      rc := 0;
    } else {
      if checkBounds && slen + 1 > InfoBufferSize {
        return -1, [];
      }
      command := names[..slen] + ['\n'];
      rc := 0;
    }
  }

  // ---------------------------------------------------------------------
  // citrusleaf_info_cluster and citrusleaf_info_cluster_foreach
  // ---------------------------------------------------------------------

  /** One node's answer to an authenticated info request (its result code
      and response text, null when there is none), and whether the call's
      deadline had passed when it came back. */
  datatype NodeReply = NodeReply(rc: int, response: Option<seq<char>>, pastDeadline: bool)

  /** A timeout of 0 means one second. */
  function ClusterTimeout(timeoutMs: int): (t: int)
    ensures timeoutMs == 0 ==> t == 1000
    ensures timeoutMs != 0 ==> t == timeoutMs
  {
    if timeoutMs == 0 then 1000 else timeoutMs
  }

  /** The node at which info_cluster stops: the first one that is not
      unavailable, or that is unavailable past the deadline. */
  function StopIndex(replies: seq<NodeReply>): (k: nat)
    ensures k <= |replies|
    ensures forall i :: 0 <= i < k ==> replies[i].rc == FAIL_UNAVAILABLE && !replies[i].pastDeadline
    ensures k < |replies| ==> replies[k].rc != FAIL_UNAVAILABLE || replies[k].pastDeadline
  {
    if |replies| == 0 then 0
    else if replies[0].rc != FAIL_UNAVAILABLE || replies[0].pastDeadline then 0
    else 1 + StopIndex(replies[1..])
  }

  /** The code info_cluster returns: unavailable only when every node was
      unavailable in time; a timeout when the deadline passed while nodes
      were unavailable; otherwise the code of the first node that answered
      with anything else. */
  function ClusterResult(replies: seq<NodeReply>): (rc: int)
    ensures rc == FAIL_UNAVAILABLE <==>
              forall i :: 0 <= i < |replies| ==> replies[i].rc == FAIL_UNAVAILABLE && !replies[i].pastDeadline
    ensures rc != FAIL_UNAVAILABLE && rc != FAIL_TIMEOUT ==>
              exists k :: 0 <= k < |replies| && replies[k].rc == rc
                          && forall i :: 0 <= i < k ==> replies[i].rc == FAIL_UNAVAILABLE
  {
    var k := StopIndex(replies);
    if k == |replies| then FAIL_UNAVAILABLE
    else if replies[k].rc == FAIL_UNAVAILABLE then FAIL_TIMEOUT
    else replies[k].rc
  }

  /** citrusleaf_info_cluster: ask the nodes in order until one does not
      answer "unavailable". Returns the code, the last asked node's response
      and how many nodes were asked. */
  method InfoCluster(replies: seq<NodeReply>) returns (rc: int, response: Option<seq<char>>, asked: nat)
    ensures rc == ClusterResult(replies)
    ensures asked == (if StopIndex(replies) == |replies| then |replies| else StopIndex(replies) + 1)
    ensures response == (if asked == 0 then None else replies[asked - 1].response)
  {
    rc := FAIL_UNAVAILABLE;
    response := None;
    var i := 0;
    while i < |replies|
      invariant 0 <= i <= StopIndex(replies)
      invariant rc == FAIL_UNAVAILABLE
      invariant response == (if i == 0 then None else replies[i - 1].response)
      decreases |replies| - i
    {
      rc := replies[i].rc;
      response := replies[i].response;
      if rc == FAIL_UNAVAILABLE {
        if replies[i].pastDeadline {
          rc := FAIL_TIMEOUT;
          return rc, response, i + 1;
        }
      } else {
        return rc, response, i + 1;
      }
      i := i + 1;
    }
    asked := i;
  }

  /** What foreach does: the code it returns and the nodes whose response
      it hands to the callback, in order. */
  datatype Walk = Walk(rc: int, visited: seq<nat>)

  /** The callback's verdict on node k's response. */
  predicate Accepts(replies: seq<NodeReply>, callback: (nat, Option<seq<char>>) -> bool, k: nat)
    requires k < |replies|
  {
    callback(k, replies[k].response)
  }

  /** What foreach does from node i on, `rc` being the code so far. */
  function ForeachFrom(replies: seq<NodeReply>, callback: (nat, Option<seq<char>>) -> bool, i: nat, rc: int): Walk
    requires i <= |replies|
    decreases |replies| - i
  {
    if i == |replies| then Walk(rc, [])
    else
      var reply := replies[i];
      if reply.rc == 0 then
        if !Accepts(replies, callback, i) then Walk(FAIL_QUERY_ABORTED, [i])
        else if reply.pastDeadline then Walk(FAIL_TIMEOUT, [i])
        else
          var rest := ForeachFrom(replies, callback, i + 1, 0);
          Walk(rest.rc, [i] + rest.visited)
      else if reply.rc != FAIL_UNAVAILABLE then Walk(reply.rc, [])
      else if reply.pastDeadline then Walk(FAIL_TIMEOUT, [])
      else ForeachFrom(replies, callback, i + 1, FAIL_UNAVAILABLE)
  }

  /** Only successful responses reach the callback, each node at most once
      and in node order; every one but the last was accepted; and a refusal
      of the last one aborts the walk. */
  lemma {:induction false} ForeachVisits(replies: seq<NodeReply>, callback: (nat, Option<seq<char>>) -> bool, i: nat, rc: int)
    requires i <= |replies| && (rc == 0 || rc == FAIL_UNAVAILABLE)
    ensures var v := ForeachFrom(replies, callback, i, rc).visited;
      (forall j :: 0 <= j < |v| ==> i <= v[j] < |replies| && replies[v[j]].rc == 0)
      && (forall j :: 0 < j < |v| ==> v[j - 1] < v[j])
      && (forall j :: 0 <= j < |v| - 1 ==> Accepts(replies, callback, v[j]))
    ensures var w := ForeachFrom(replies, callback, i, rc);
      |w.visited| > 0 && !Accepts(replies, callback, w.visited[|w.visited| - 1]) ==> w.rc == FAIL_QUERY_ABORTED
    decreases |replies| - i
  {
    if i < |replies| {
      var reply := replies[i];
      if reply.rc == 0 && Accepts(replies, callback, i) && !reply.pastDeadline {
        ForeachVisits(replies, callback, i + 1, 0);
        var rest := ForeachFrom(replies, callback, i + 1, 0).visited;
        var v := [i] + rest;
        assert ForeachFrom(replies, callback, i, rc).visited == v;
        assert forall j :: 0 < j < |v| ==> v[j] == rest[j - 1];
      } else if reply.rc == FAIL_UNAVAILABLE && !reply.pastDeadline {
        ForeachVisits(replies, callback, i + 1, FAIL_UNAVAILABLE);
        assert ForeachFrom(replies, callback, i, rc) == ForeachFrom(replies, callback, i + 1, FAIL_UNAVAILABLE);
      }
    }
  }

  /** citrusleaf_info_cluster_foreach: hand every successful response to the
      callback; a callback answering false aborts, an error other than
      "unavailable" stops, and so does the deadline. */
  method ClusterForeach(replies: seq<NodeReply>, callback: (nat, Option<seq<char>>) -> bool) returns (rc: int, visited: seq<nat>)
    ensures Walk(rc, visited) == ForeachFrom(replies, callback, 0, FAIL_UNAVAILABLE)
  {
    rc := FAIL_UNAVAILABLE;
    visited := [];
    ghost var total := ForeachFrom(replies, callback, 0, FAIL_UNAVAILABLE);
    assert total.visited == visited + total.visited;
    var i := 0;
    while i < |replies|
      invariant 0 <= i <= |replies|
      invariant rc == 0 || rc == FAIL_UNAVAILABLE
      invariant total.rc == ForeachFrom(replies, callback, i, rc).rc
      invariant total.visited == visited + ForeachFrom(replies, callback, i, rc).visited
      decreases |replies| - i
    {
      var reply := replies[i];
      if reply.rc == 0 {
        if !callback(i, reply.response) {
          visited, rc := visited + [i], FAIL_QUERY_ABORTED;
          return;
        }
        if reply.pastDeadline {
          visited, rc := visited + [i], FAIL_TIMEOUT;
          return;
        }
        ghost var rest := ForeachFrom(replies, callback, i + 1, 0);
        assert visited + ([i] + rest.visited) == (visited + [i]) + rest.visited;
        visited, rc := visited + [i], 0;
      } else if reply.rc != FAIL_UNAVAILABLE {
        assert visited + [] == visited;
        rc := reply.rc;
        return;
      } else if reply.pastDeadline {
        assert visited + [] == visited;
        rc := FAIL_TIMEOUT;
        return;
      } else {
        rc := FAIL_UNAVAILABLE;
      }
      i := i + 1;
    }
    assert visited + [] == visited;
  }

  /** Early termination: a callback that refuses the first response it sees
      is called exactly once, whatever the number of nodes. */
  lemma {:induction false} ForeachStopsAtFirstRefusal(replies: seq<NodeReply>, callback: (nat, Option<seq<char>>) -> bool, i: nat, rc: int, k: nat)
    requires i <= k < |replies| && replies[k].rc == 0 && !Accepts(replies, callback, k)
    requires forall j :: i <= j < k ==> replies[j].rc == FAIL_UNAVAILABLE && !replies[j].pastDeadline
    ensures ForeachFrom(replies, callback, i, rc) == Walk(FAIL_QUERY_ABORTED, [k])
    decreases k - i
  {
    if i < k {
      ForeachStopsAtFirstRefusal(replies, callback, i + 1, FAIL_UNAVAILABLE, k);
    }
  }

  /** Early termination on an error: a reply other than success or
      "unavailable" ends the walk with that reply's code; no node after it
      is asked, and the callback has seen exactly the successful nodes
      before it. */
  lemma {:induction false} ForeachStopsAtFailure(replies: seq<NodeReply>, callback: (nat, Option<seq<char>>) -> bool, i: nat, rc: int, k: nat)
    requires i <= k < |replies| && replies[k].rc != 0 && replies[k].rc != FAIL_UNAVAILABLE
    requires forall j :: i <= j < k ==>
               !replies[j].pastDeadline
               && (replies[j].rc == FAIL_UNAVAILABLE || (replies[j].rc == 0 && Accepts(replies, callback, j)))
    ensures var w := ForeachFrom(replies, callback, i, rc);
      && w.rc == replies[k].rc
      && (forall n :: n in w.visited ==> i <= n < k)
      && (forall j :: i <= j < k ==> (j in w.visited <==> replies[j].rc == 0))
    decreases k - i
  {
    if i < k {
      var next := if replies[i].rc == 0 then 0 else FAIL_UNAVAILABLE;
      ForeachStopsAtFailure(replies, callback, i + 1, next, k);
    }
  }

  /** The code foreach returns is the last asked node's: when every node
      answers in time, either successfully or "unavailable", and the
      callback accepts everything, the result is the last node's code, so
      an unavailable last node masks earlier successes. */
  lemma {:induction false} ForeachReportsLastNode(replies: seq<NodeReply>, callback: (nat, Option<seq<char>>) -> bool, i: nat, rc: int)
    requires i < |replies|
    requires forall j :: i <= j < |replies| ==>
               (replies[j].rc == 0 || replies[j].rc == FAIL_UNAVAILABLE) && !replies[j].pastDeadline
               && Accepts(replies, callback, j)
    ensures ForeachFrom(replies, callback, i, rc).rc == replies[|replies| - 1].rc
    decreases |replies| - i
  {
    if i + 1 < |replies| {
      ForeachReportsLastNode(replies, callback, i + 1, if replies[i].rc == 0 then 0 else FAIL_UNAVAILABLE);
    }
  }
}
