/** Secondary-index management through the info protocol: the creation and
    deletion commands, and the fixed parameters of the cluster request that
    carries them. */
module SIndex {
  import opened Wrappers
  import opened ResultCodes

  /** What a secondary-index call hands to citrusleaf_info_cluster: the
      command text, the send-as-is and bounds-check flags, and the timeout
      in milliseconds. The call returns the cluster request's code as is. */
  datatype InfoRequest = InfoRequest(command: string, sendAsis: bool, checkBounds: bool, timeoutMs: int)

  /** A call is either refused before any request, with a code, or sent. */
  datatype Call = Rejected(rc: int) | Sent(request: InfoRequest)

  const RequestTimeoutMs: int := 5000

  /** The request both calls make for a command. */
  function Request(command: string): InfoRequest
  {
    InfoRequest(command, true, true, RequestTimeoutMs)
  }

  const CreateVerb: string := "sindex-create:"
  const DropVerb: string := "sindex-delete:"

  /** The creation command: the verb, the parameters separated by ';', and
      a newline; the "set=" parameter appears only when a set is given. */
  function CreateCommand(ns: string, setName: Option<string>, iname: string, binname: string, itype: string): string
  {
    CreateVerb + Join(CreatePairs(ns, setName, iname, binname, itype), ';') + "\n"
  }

  /** The parameters of the creation command, in order. */
  function CreatePairs(ns: string, setName: Option<string>, iname: string, binname: string, itype: string): (r: seq<string>)
    ensures |r| > 0
  {
    ["ns=" + ns] + (if setName.Some? then ["set=" + setName.value] else [])
    + ["indexname=" + iname, "numbins=1", "indexdata=" + binname + "," + itype, "priority=normal"]
  }

  /** The deletion command: the verb and the parameters separated by ';',
      without a terminating newline. */
  function DropCommand(ns: string, indexname: string): string
  {
    DropVerb + Join(DropPairs(ns, indexname), ';')
  }

  /** The parameters of the deletion command, in order. */
  function DropPairs(ns: string, indexname: string): (r: seq<string>)
    ensures |r| > 0
  {
    ["ns=" + ns, "indexname=" + indexname]
  }

  /** citrusleaf_secondary_index_create: a missing namespace, index name,
      bin name or type is refused with a client failure and no request;
      the set may be missing. */
  function SecondaryIndexCreate(ns: Option<string>, setName: Option<string>, iname: Option<string>,
                                binname: Option<string>, itype: Option<string>): (c: Call)
    ensures c.Rejected? <==> ns.None? || iname.None? || binname.None? || itype.None?
    ensures c.Rejected? ==> c.rc == FAIL_CLIENT
    ensures c.Sent? ==> c.request.sendAsis && c.request.checkBounds && c.request.timeoutMs == 5000
    ensures c.Sent? ==> c.request.command == CreateCommand(ns.value, setName, iname.value, binname.value, itype.value)
  {
    if ns.None? || iname.None? || binname.None? || itype.None? then Rejected(FAIL_CLIENT)
    else Sent(Request(CreateCommand(ns.value, setName, iname.value, binname.value, itype.value)))
  }

  /** citrusleaf_secondary_index_drop: always sent; the names are not
      checked. */
  function SecondaryIndexDrop(ns: string, indexname: string): (c: Call)
    ensures c.Sent? && c.request.sendAsis && c.request.checkBounds && c.request.timeoutMs == 5000
    ensures c.request.command == DropCommand(ns, indexname)
  {
    Sent(Request(DropCommand(ns, indexname)))
  }

  // ---------------------------------------------------------------------
  // The commands as key=value lists
  // ---------------------------------------------------------------------

  /** The parts joined with sep between each two. */
  function Join(parts: seq<string>, sep: char): string
    requires |parts| > 0
  {
    if |parts| == 1 then parts[0] else parts[0] + [sep] + Join(parts[1..], sep)
  }

  /** The text cut at every sep: one more piece than there are separators. */
  function Split(s: string, sep: char): (r: seq<string>)
    ensures |r| > 0
    decreases |s|
  {
    if |s| == 0 then [""]
    else
      var rest := Split(s[1..], sep);
      if s[0] == sep then [""] + rest else [[s[0]] + rest[0]] + rest[1..]
  }

  /** A piece without the separator, then the separator: the piece comes
      out first. */
  lemma {:induction false} SplitAfter(p: string, sep: char, t: string)
    requires sep !in p
    ensures Split(p + [sep] + t, sep) == [p] + Split(t, sep)
    decreases |p|
  {
    if |p| == 0 {
      assert p + [sep] + t == [sep] + t;
      assert ([sep] + t)[1..] == t;
    } else {
      var s := p + [sep] + t;
      assert s[0] == p[0] && s[1..] == p[1..] + [sep] + t;
      assert sep !in p[1..] by {
        forall k | 0 <= k < |p[1..]| ensures p[1..][k] != sep {
          assert p[1..][k] == p[k + 1];
        }
      }
      SplitAfter(p[1..], sep, t);
      assert [p[0]] + p[1..] == p;
    }
  }

  /** A text without the separator is one piece. */
  lemma {:induction false} SplitNone(p: string, sep: char)
    requires sep !in p
    ensures Split(p, sep) == [p]
    decreases |p|
  {
    if |p| > 0 {
      assert sep !in p[1..] by {
        forall k | 0 <= k < |p[1..]| ensures p[1..][k] != sep {
          assert p[1..][k] == p[k + 1];
        }
      }
      SplitNone(p[1..], sep);
      assert [p[0]] + p[1..] == p;
    }
  }

  /** Cutting joined pieces that do not contain the separator gives the
      pieces back. */
  lemma {:induction false} SplitJoin(parts: seq<string>, sep: char)
    requires |parts| > 0
    requires forall i :: 0 <= i < |parts| ==> sep !in parts[i]
    ensures Split(Join(parts, sep), sep) == parts
    decreases |parts|
  {
    if |parts| == 1 {
      SplitNone(parts[0], sep);
    } else {
      SplitAfter(parts[0], sep, Join(parts[1..], sep));
      SplitJoin(parts[1..], sep);
      assert [parts[0]] + parts[1..] == parts;
    }
  }

  /** Names without ';' are read back from the creation command: between
      the verb and the newline, the ';'-separated pieces are the
      parameters, with "set=" present exactly when a set was given. */
  lemma CreateCommandFields(ns: string, setName: Option<string>, iname: string, binname: string, itype: string)
    requires ';' !in ns && ';' !in iname && ';' !in binname && ';' !in itype
    requires setName.Some? ==> ';' !in setName.value
    ensures var cmd := CreateCommand(ns, setName, iname, binname, itype);
      var pieces := Split(cmd[|CreateVerb|..|cmd| - 1], ';');
      pieces == CreatePairs(ns, setName, iname, binname, itype)
      && ((exists i :: 0 <= i < |pieces| && HasKey(pieces[i], "set=")) <==> setName.Some?)
  {
    var pairs := CreatePairs(ns, setName, iname, binname, itype);
    var cmd := CreateCommand(ns, setName, iname, binname, itype);
    var body := Join(pairs, ';');
    assert cmd[|CreateVerb|..|cmd| - 1] == body;
    forall i | 0 <= i < |pairs|
      ensures ';' !in pairs[i]
    {
      NoSeparator(ns, setName, iname, binname, itype, i);
    }
    SplitJoin(pairs, ';');
    SetKeyOnlyForSet(ns, setName, iname, binname, itype);
  }

  /** p starts with the key k. */
  predicate HasKey(p: string, k: string)
  {
    |k| <= |p| && p[..|k|] == k
  }

  /** Only the "set=" parameter starts with that key. */
  lemma SetKeyOnlyForSet(ns: string, setName: Option<string>, iname: string, binname: string, itype: string)
    ensures var pairs := CreatePairs(ns, setName, iname, binname, itype);
      (exists i :: 0 <= i < |pairs| && HasKey(pairs[i], "set=")) <==> setName.Some?
  {
    var pairs := CreatePairs(ns, setName, iname, binname, itype);
    if setName.Some? {
      assert pairs[1] == "set=" + setName.value;
      assert HasKey(pairs[1], "set=");
    } else {
      forall i | 0 <= i < |pairs|
        ensures !HasKey(pairs[i], "set=")
      {
        assert pairs[i][0] != 's';
      }
    }
  }

  /** No parameter of the creation command holds a ';' when no name does. */
  lemma NoSeparator(ns: string, setName: Option<string>, iname: string, binname: string, itype: string, i: nat)
    requires ';' !in ns && ';' !in iname && ';' !in binname && ';' !in itype
    requires setName.Some? ==> ';' !in setName.value
    requires i < |CreatePairs(ns, setName, iname, binname, itype)|
    ensures ';' !in CreatePairs(ns, setName, iname, binname, itype)[i]
  {
  }

  /** Names without ';' are read back from the deletion command. */
  lemma DropCommandFields(ns: string, indexname: string)
    requires ';' !in ns && ';' !in indexname
    ensures var cmd := DropCommand(ns, indexname);
      Split(cmd[|DropVerb|..], ';') == DropPairs(ns, indexname)
  {
    var cmd := DropCommand(ns, indexname);
    assert cmd[|DropVerb|..] == Join(DropPairs(ns, indexname), ';');
    SplitJoin(DropPairs(ns, indexname), ';');
  }
}
