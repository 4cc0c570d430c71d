/**
 * The ddcutil wrapper: normalising hex spellings, the retry policy around the
 * ddcutil command, and the parsing of `ddcutil --brief getvcp` output into
 * VCP records.  The command itself is not run: each call's outcome is taken
 * from a sequence of results supplied by the caller.
 */
module Ddcutil {
  import opened Wrappers
  import opened Text

  // ---------------------------------------------------------------------------
  // to_hex_string

  /** re.sub("^0?x", "", s): drop one leading "0x", or else one leading "x". */
  function StripHexPrefix(s: string): (r: string)
    ensures |s| - 2 <= |r| <= |s| && r == s[|s| - |r|..]
    ensures |r| < |s| <==> (|s| >= 2 && s[..2] == "0x") || (|s| >= 1 && s[0] == 'x')
  {
    if |s| >= 2 && s[..2] == "0x" then s[2..]
    else if |s| >= 1 && s[0] == 'x' then s[1..]
    else s
  }

  /** A normalised hex spelling: "0x" followed by no upper-case letter. */
  predicate IsHexForm(s: string)
  {
    |s| >= 2 && s[..2] == "0x" && IsLower(s)
  }

  function ToHexString(s: string): (r: string)
    ensures IsHexForm(r)
  {
    var r := Lower("0x" + StripHexPrefix(s));
    LowerConcat("0x", StripHexPrefix(s));
    LowerIsLower("0x" + StripHexPrefix(s));
    assert r[..2] == "0x";
    r
  }

  /** The three spellings ddcutil uses for one value normalise alike. */
  lemma ToHexStringSpellings()
    ensures ToHexString("0xa9") == "0xa9"
    ensures ToHexString("xa9") == "0xa9"
    ensures ToHexString("a9") == "0xa9"
  {
    assert "0xa9"[..2] == "0x";
    assert "0xa9"[2..] == "a9";
    assert "xa9"[1..] == "a9";
    assert "a9"[0] == 'a';
    LowerConcat("0x", "a9");
  }

  /** One prefix is stripped, at most once, before lower-casing. */
  lemma ToHexStringStripsOnce(t: string)
    ensures ToHexString("0x" + t) == "0x" + Lower(t)
    ensures ToHexString("x" + t) == "0x" + Lower(t)
  {
    assert ("0x" + t)[..2] == "0x" && ("0x" + t)[2..] == t;
    assert ("x" + t)[0] == 'x' && ("x" + t)[1..] == t;
    LowerConcat("0x", t);
  }

  lemma LowerHexPrefix()
    ensures Lower("0x") == "0x" && Lower("0X") == "0x"
  {
    assert "0x"[1..] == "x" && "0X"[1..] == "X";
    assert "x"[1..] == [] && "X"[1..] == [];
  }

  /** An upper-case "0X" is not a prefix the pattern knows: it is kept, then lower-cased. */
  lemma ToHexStringKeepsUpperPrefix(t: string)
    ensures ToHexString("0X" + t) == "0x0x" + Lower(t)
  {
    var s := "0X" + t;
    assert s[..2] == "0X" && s[0] == '0';
    assert StripHexPrefix(s) == s;
    LowerConcat("0X", t);
    LowerConcat("0x", s);
    LowerHexPrefix();
    assert "0x" + ("0x" + Lower(t)) == "0x0x" + Lower(t);
  }

  /** Any other string is only given the "0x" prefix and lower-cased. */
  lemma ToHexStringNoPrefix(s: string)
    requires !(|s| >= 2 && s[..2] == "0x") && !(|s| >= 1 && s[0] == 'x')
    ensures ToHexString(s) == "0x" + Lower(s)
  {
    LowerConcat("0x", s);
    LowerHexPrefix();
  }

  /** Normalising twice is normalising once. */
  lemma ToHexStringIdempotent(s: string)
    ensures ToHexString(ToHexString(s)) == ToHexString(s)
  {
    var r := ToHexString(s);
    assert r == "0x" + r[2..];
    ToHexStringStripsOnce(r[2..]);
    assert IsLower(r[2..]) by {
      forall i | 0 <= i < |r[2..]| ensures !IsUpper(r[2..][i]) {
        assert r[2..][i] == r[i + 2];
      }
    }
    LowerOfLower(r[2..]);
  }

  // ---------------------------------------------------------------------------
  // exec_cmd

  /** One run of the ddcutil command, as subprocess.run reports it. */
  datatype CmdResult = CmdResult(returncode: int, stderr: string, stdout: string)

  /** The RuntimeError raised by exec_cmd: the command line and its stderr. */
  datatype CommandError = RuntimeError(command: string, stderr: string)

  const MAX_RETRIES: nat := 5

  /** The transient failure exec_cmd retries on. */
  predicate DisplayNotFound(r: CmdResult)
  {
    r.returncode == 1 && Contains(Lower(r.stderr), "display not found")
  }

  function AttemptsFrom(results: seq<CmdResult>, i: nat): (n: nat)
    requires i < MAX_RETRIES <= |results|
    ensures i < n <= MAX_RETRIES
    ensures forall k :: i <= k < n - 1 ==> DisplayNotFound(results[k])
    ensures n < MAX_RETRIES ==> !DisplayNotFound(results[n - 1])
    decreases MAX_RETRIES - i
  {
    if i == MAX_RETRIES - 1 || !DisplayNotFound(results[i]) then i + 1
    else AttemptsFrom(results, i + 1)
  }

  /**
   * How many times exec_cmd runs the command: it stops after the first run
   * that is not a "display not found" failure, and after five runs at most.
   */
  function Attempts(results: seq<CmdResult>): (n: nat)
    requires MAX_RETRIES <= |results|
    ensures 1 <= n <= MAX_RETRIES
    ensures forall k :: 0 <= k < n - 1 ==> DisplayNotFound(results[k])
    ensures n < MAX_RETRIES ==> !DisplayNotFound(results[n - 1])
  {
    AttemptsFrom(results, 0)
  }

  /** What exec_cmd returns or raises, given the results of successive runs. */
  function ExecOutcome(args: seq<string>, results: seq<CmdResult>): Result<string, CommandError>
    requires MAX_RETRIES <= |results|
  {
    var last := results[Attempts(results) - 1];
    if last.returncode != 0 then Failure(RuntimeError(Join(args, " "), last.stderr))
    else Success(last.stdout)
  }

  /**
   * exec_cmd(args), where results[k] is what the (k+1)-th run of the command
   * reports.  Returns the outcome and the number of runs.
   */
  method ExecCmd(args: seq<string>, results: seq<CmdResult>) returns (out: Result<string, CommandError>, runs: nat)
    requires MAX_RETRIES <= |results|
    ensures 1 <= runs <= MAX_RETRIES
    ensures forall k :: 0 <= k < runs - 1 ==> DisplayNotFound(results[k])
    ensures runs < MAX_RETRIES ==> !DisplayNotFound(results[runs - 1])
    ensures out.Failure? <==> results[runs - 1].returncode != 0
    ensures out.Failure? ==> out.error == RuntimeError(Join(args, " "), results[runs - 1].stderr)
    ensures out.Success? ==> out.value == results[runs - 1].stdout
    ensures runs == Attempts(results) && out == ExecOutcome(args, results)
  {
    var maxRetries := MAX_RETRIES;
    var result := results[0];
    runs := 0;
    while maxRetries > 0
      invariant runs + maxRetries == MAX_RETRIES
      invariant runs > 0 ==> result == results[runs - 1]
      invariant forall k :: 0 <= k < runs ==> DisplayNotFound(results[k])
    {
      result := results[runs];
      runs := runs + 1;
      if DisplayNotFound(result) {
        maxRetries := maxRetries - 1;
      } else {
        break;
      }
    }
    if result.returncode != 0 {
      out := Failure(RuntimeError(Join(args, " "), result.stderr));
    } else {
      out := Success(result.stdout);
    }
  }

  // ---------------------------------------------------------------------------
  // get_vcp

  /** The ddcutil command line used for every call (from the settings module). */
  const DDC_CMD_BASE: seq<string> :=
    ["ddcutil", "-l", "DELL U3824DW", "-n", "2WFMZR3", "--brief", "--noverify"]

  /** One VCP feature report; fields the row's tag does not carry are None. */
  datatype VCP = VCP(
    code: string, vtype: string,
    current: Option<string>, maximum: Option<string>,
    mh: Option<string>, ml: Option<string>, sh: Option<string>, sl: Option<string>,
    text: Option<string>)

  /** The IndexError a short row raises; get_vcp does not catch it. */
  datatype ParseError = IndexError

  /** What one row does to the parsing loop. */
  datatype RowOutcome = EndOfRows | NoRecord | Record(vcp: VCP) | RowIndexError

  /** How many space-separated tokens a row with this tag must have. */
  function TokensNeeded(tag: string): nat
  {
    if tag == "C" then 5
    else if tag == "SNC" || tag == "T" then 4
    else if tag == "CNC" then 7
    else 3
  }

  predicate KnownTag(tag: string)
  {
    tag == "C" || tag == "SNC" || tag == "CNC" || tag == "T"
  }

  predicate OptHexForm(o: Option<string>)
  {
    o.Some? ==> IsHexForm(o.value)
  }

  /** Every field of a parsed record is in normalised hex form. */
  predicate Normalised(v: VCP)
  {
    IsHexForm(v.code) && OptHexForm(v.current) && OptHexForm(v.maximum) &&
    OptHexForm(v.mh) && OptHexForm(v.ml) && OptHexForm(v.sh) && OptHexForm(v.sl) &&
    OptHexForm(v.text)
  }

  /**
   * One row, split on single spaces.  A row not starting with "VCP" ends the
   * loop; a row too short for its tag raises IndexError; a row with one of
   * the four tags gives one record whose code is token 1 normalised; any
   * other tag gives nothing.
   */
  function ParseRow(data: seq<string>): (o: RowOutcome)
    requires |data| >= 1
    ensures o.EndOfRows? <==> data[0] != "VCP"
    ensures o.RowIndexError? <==>
      data[0] == "VCP" && (|data| < 3 || |data| < TokensNeeded(data[2]))
    ensures o.Record? <==>
      data[0] == "VCP" && |data| >= 3 && KnownTag(data[2]) && |data| >= TokensNeeded(data[2])
    ensures o.Record? ==> o.vcp.code == ToHexString(data[1]) && o.vcp.vtype == data[2]
    ensures o.Record? ==> Normalised(o.vcp)
    ensures o.Record? && data[2] == "C" ==>
      o.vcp.current == Some(ToHexString(data[3])) && o.vcp.maximum == Some(ToHexString(data[4])) &&
      o.vcp.mh == o.vcp.ml == o.vcp.sh == o.vcp.sl == o.vcp.text == None
    ensures o.Record? && data[2] == "SNC" ==>
      o.vcp.sl == Some(ToHexString(data[3])) &&
      o.vcp.current == o.vcp.maximum == o.vcp.mh == o.vcp.ml == o.vcp.sh == o.vcp.text == None
    ensures o.Record? && data[2] == "CNC" ==>
      o.vcp.mh == Some(ToHexString(data[3])) && o.vcp.ml == Some(ToHexString(data[4])) &&
      o.vcp.sh == Some(ToHexString(data[5])) && o.vcp.sl == Some(ToHexString(data[6])) &&
      o.vcp.current == o.vcp.maximum == o.vcp.text == None
    ensures o.Record? && data[2] == "T" ==>
      o.vcp.text == Some(ToHexString(data[3])) &&
      o.vcp.current == o.vcp.maximum == o.vcp.mh == o.vcp.ml == o.vcp.sh == o.vcp.sl == None
  {
    if data[0] != "VCP" then EndOfRows
    else if |data| < 3 then RowIndexError
    else if |data| < TokensNeeded(data[2]) then RowIndexError
    else if data[2] == "C" then
      Record(VCP(ToHexString(data[1]), "C", Some(ToHexString(data[3])), Some(ToHexString(data[4])),
                 None, None, None, None, None))
    else if data[2] == "SNC" then
      Record(VCP(ToHexString(data[1]), "SNC", None, None, None, None, None,
                 Some(ToHexString(data[3])), None))
    else if data[2] == "CNC" then
      Record(VCP(ToHexString(data[1]), "CNC", None, None,
                 Some(ToHexString(data[3])), Some(ToHexString(data[4])),
                 Some(ToHexString(data[5])), Some(ToHexString(data[6])), None))
    else if data[2] == "T" then
      Record(VCP(ToHexString(data[1]), "T", None, None, None, None, None, None,
                 Some(ToHexString(data[3]))))
    else NoRecord
  }

  /** A brief-mode report of input source 0x60 set to 0x0f. */
  lemma ParseRowSimpleNonContinuous()
    ensures ParseRow(["VCP", "60", "SNC", "x0f"]) ==
      Record(VCP("0x60", "SNC", None, None, None, None, None, Some("0x0f"), None))
  {
    assert ToHexString("60") == "0x60" by {
      assert "60"[0] == '6';
      assert StripHexPrefix("60") == "60";
      assert "0x" + "60" == "0x60";
      LowerOfLower("0x60");
    }
    assert ToHexString("x0f") == "0x0f" by {
      assert "x0f" == "x" + "0f";
      ToHexStringStripsOnce("0f");
      LowerOfLower("0f");
    }
  }

  /** The rows of the command output, each split into its tokens. */
  function Rows(output: string): (rows: seq<seq<string>>)
    ensures forall k :: 0 <= k < |rows| ==> |rows[k]| >= 1
  {
    var lines := Split(output, '\n');
    seq(|lines|, k requires 0 <= k < |lines| => Split(lines[k], ' '))
  }

  predicate AllRowsNonEmpty(rows: seq<seq<string>>)
  {
    forall k :: 0 <= k < |rows| ==> |rows[k]| >= 1
  }

  function Prepend(vs: seq<VCP>, r: Result<seq<VCP>, ParseError>): Result<seq<VCP>, ParseError>
  {
    match r
    case Success(ws) => Success(vs + ws)
    case Failure(e) => Failure(e)
  }

  lemma PrependEmpty(r: Result<seq<VCP>, ParseError>)
    ensures Prepend([], r) == r
  {
    if r.Success? {
      assert [] + r.value == r.value;
    }
  }

  lemma PrependAssoc(us: seq<VCP>, vs: seq<VCP>, r: Result<seq<VCP>, ParseError>)
    ensures Prepend(us, Prepend(vs, r)) == Prepend(us + vs, r)
  {
    if r.Success? {
      assert us + (vs + r.value) == (us + vs) + r.value;
    }
  }

  /** The row loop of get_vcp. */
  function ParseRows(rows: seq<seq<string>>): Result<seq<VCP>, ParseError>
    requires AllRowsNonEmpty(rows)
  {
    if rows == [] then Success([])
    else
      match ParseRow(rows[0])
      case EndOfRows => Success([])
      case RowIndexError => Failure(IndexError)
      case NoRecord => ParseRows(rows[1..])
      case Record(v) => Prepend([v], ParseRows(rows[1..]))
  }

  /** One step of the row loop, as a statement about the first row. */
  lemma ParseRowsCons(rows: seq<seq<string>>)
    requires AllRowsNonEmpty(rows) && rows != []
    ensures ParseRow(rows[0]).EndOfRows? ==> ParseRows(rows) == Success([])
    ensures ParseRow(rows[0]).RowIndexError? ==> ParseRows(rows) == Failure(IndexError)
    ensures ParseRow(rows[0]).NoRecord? ==> ParseRows(rows) == ParseRows(rows[1..])
    ensures ParseRow(rows[0]).Record? ==>
      ParseRows(rows) == Prepend([ParseRow(rows[0]).vcp], ParseRows(rows[1..]))
  {
  }

  /** Rows after the first row that does not start with "VCP" are never read. */
  lemma {:induction false} ParseRowsIgnoresAfterEnd(pre: seq<seq<string>>, stop: seq<string>, post: seq<seq<string>>)
    requires AllRowsNonEmpty(pre) && |stop| >= 1 && AllRowsNonEmpty(post)
    requires stop[0] != "VCP"
    ensures AllRowsNonEmpty(pre + [stop] + post) && AllRowsNonEmpty(pre + [stop])
    ensures ParseRows(pre + [stop] + post) == ParseRows(pre + [stop])
  {
    var a, b := pre + [stop] + post, pre + [stop];
    assert forall k :: 0 <= k < |a| ==> a[k] == (if k < |pre| then pre[k] else if k == |pre| then stop else post[k - |pre| - 1]);
    assert forall k :: 0 <= k < |b| ==> b[k] == (if k < |pre| then pre[k] else stop);
    if pre != [] {
      assert a[1..] == pre[1..] + [stop] + post;
      assert b[1..] == pre[1..] + [stop];
      ParseRowsIgnoresAfterEnd(pre[1..], stop, post);
    }
  }

  /** The records of rows that neither end the loop nor fail, in row order. */
  function RecordsOf(rows: seq<seq<string>>): seq<VCP>
    requires AllRowsNonEmpty(rows)
  {
    if rows == [] then []
    else
      (match ParseRow(rows[0]) case Record(v) => [v] case _ => []) + RecordsOf(rows[1..])
  }

  predicate Continues(rows: seq<seq<string>>)
    requires AllRowsNonEmpty(rows)
  {
    forall k :: 0 <= k < |rows| ==> ParseRow(rows[k]).Record? || ParseRow(rows[k]).NoRecord?
  }

  /**
   * Output order follows row order: over rows that all continue the loop, the
   * records come first, in order, followed by whatever the remaining rows give.
   */
  lemma {:induction false} ParseRowsAppend(pre: seq<seq<string>>, post: seq<seq<string>>)
    requires AllRowsNonEmpty(pre) && AllRowsNonEmpty(post) && Continues(pre)
    ensures AllRowsNonEmpty(pre + post)
    ensures ParseRows(pre + post) == Prepend(RecordsOf(pre), ParseRows(post))
  {
    var a := pre + post;
    assert forall k :: 0 <= k < |a| ==> a[k] == (if k < |pre| then pre[k] else post[k - |pre|]);
    if pre == [] {
      assert a == post;
      match ParseRows(post) {
        case Success(ws) => assert [] + ws == ws;
        case Failure(e) =>
      }
    } else {
      assert a[1..] == pre[1..] + post;
      assert a[0] == pre[0];
      ParseRowsAppend(pre[1..], post);
      match ParseRows(post) {
        case Success(ws) =>
          match ParseRow(pre[0]) {
            case Record(v) => assert [v] + (RecordsOf(pre[1..]) + ws) == ([v] + RecordsOf(pre[1..])) + ws;
            case NoRecord => assert [] + RecordsOf(pre[1..]) == RecordsOf(pre[1..]);
          }
        case Failure(e) =>
      }
    }
  }

  /** Every record get_vcp builds carries only normalised hex values, and no more
      records than rows. */
  lemma {:induction false} ParseRowsNormalised(rows: seq<seq<string>>)
    requires AllRowsNonEmpty(rows)
    ensures ParseRows(rows).Success? ==>
      |ParseRows(rows).value| <= |rows| &&
      forall j :: 0 <= j < |ParseRows(rows).value| ==> Normalised(ParseRows(rows).value[j])
  {
    if rows != [] {
      ParseRowsNormalised(rows[1..]);
    }
  }

  /**
   * The row loop of get_vcp over the command's stdout: rows in order, parsing
   * stops at the first row that does not start with "VCP", and a short row
   * raises IndexError.
   */
  method ParseVcpOutput(output: string) returns (r: Result<seq<VCP>, ParseError>)
    ensures r == ParseRows(Rows(output))
  {
    var lines := Split(output, '\n');
    ghost var rows := Rows(output);
    var response: seq<VCP> := [];
    var i := 0;
    PrependEmpty(ParseRows(rows));
    assert rows[0..] == rows;
    while i < |lines|
      invariant 0 <= i <= |lines| && |rows| == |lines|
      invariant ParseRows(rows) == Prepend(response, ParseRows(rows[i..]))
    {
      var data := Split(lines[i], ' ');
      assert data == rows[i];
      ParseRowsCons(rows[i..]);
      assert rows[i..][1..] == rows[i + 1..];
      var o := ParseRow(data);
      if o.EndOfRows? {
        assert response + [] == response;
        return Success(response);
      } else if o.RowIndexError? {
        return Failure(IndexError);
      } else if o.Record? {
        PrependAssoc(response, [o.vcp], ParseRows(rows[i + 1..]));
        response := response + [o.vcp];
      }
      i := i + 1;
    }
    assert response + [] == response;
    r := Success(response);
  }

  /**
   * get_vcp(*features): run "getvcp" with the features, parse the output; a
   * RuntimeError from exec_cmd gives an empty list, an IndexError escapes.
   */
  method GetVcp(features: seq<string>, results: seq<CmdResult>) returns (r: Result<seq<VCP>, ParseError>)
    requires MAX_RETRIES <= |results|
    ensures var exec := ExecOutcome(DDC_CMD_BASE + ["getvcp"] + features, results);
      (exec.Failure? ==> r == Success([])) &&
      (exec.Success? ==> r == ParseRows(Rows(exec.value)))
  {
    var args := DDC_CMD_BASE + ["getvcp"] + features;
    var result, _ := ExecCmd(args, results);
    match result
    case Failure(_) =>
      r := Success([]);
    case Success(output) =>
      r := ParseVcpOutput(output);
  }
}
