/** The console writer: `write_str` sends a string to the firmware console one
    character per call and gives up at the first call that fails. */
module Console {
  import opened Results
  import opened Sbi

  /** The formatter's error: it carries no information. */
  datatype FmtError = FmtError

  type FmtResult = Result<(), FmtError>

  /** The conversion from an SBI error to the formatter's error. Every kind
      maps to the same value, so which call failed, and how, is lost. */
  function FromSbiError(e: SbiError): (r: FmtError)
    ensures r == FmtError
  {
    FmtError
  }

  /** A character's code point, as `c as i32` converts it. */
  function CodePoint(c: char): (r: i32)
    ensures r as int == c as int
  {
    c as int as i32
  }

  /** The calls `write_str` issues for `s` when every one of them succeeds. */
  function Requests(s: string): (r: seq<Request>)
    ensures |r| == |s|
  {
    if s == [] then [] else [PutcharRequest(CodePoint(s[0]))] + Requests(s[1..])
  }

  /** The `k`-th of those calls is the Console Putchar call for the code
      point of `s[k]`. */
  lemma {:induction false} RequestsAt(s: string, k: nat)
    requires k < |s|
    ensures Requests(s)[k] == PutcharRequest(CodePoint(s[k]))
  {
    if k > 0 {
      RequestsAt(s[1..], k - 1);
    }
  }

  /** The calls issued and the result returned by one `write_str`. */
  datatype Outcome = Outcome(log: seq<Request>, result: FmtResult)

  /** What `write_str(s)` does against the firmware `respond` once `log` has
      been issued: the firmware's log afterwards, and the result. */
  ghost function WriteStrSpec(respond: seq<Request> -> Reply, log: seq<Request>, s: string): (o: Outcome)
    requires Conforming(respond)
    ensures |log| <= |o.log| <= |log| + |s|
    ensures o.log == log + Requests(s)[..|o.log| - |log|]
    ensures o.result.Ok? ==> o.log == log + Requests(s)
    ensures o.result.Err? ==> |o.log| > |log| && Decode(respond(o.log)).Err?
    decreases |s|
  {
    if s == [] then Outcome(log, Ok(()))
    else
      var issued := log + [PutcharRequest(CodePoint(s[0]))];
      match Decode(respond(issued))
      case Err(e) =>
        RequestsPrefix(log, s, 0);
        Outcome(issued, Err(FromSbiError(e)))
      case Ok(_) =>
        var o := WriteStrSpec(respond, issued, s[1..]);
        RequestsPrefix(log, s, |o.log| - |issued|);
        o
  }

  /** Issuing the first call of `s` and then `m` calls of `s[1..]` issues the
      first `m + 1` calls of `s`. */
  lemma RequestsPrefix(log: seq<Request>, s: string, m: nat)
    requires 0 < |s| && m < |s|
    ensures (log + [PutcharRequest(CodePoint(s[0]))]) + Requests(s[1..])[..m] == log + Requests(s)[..m + 1]
  {
    var first, rest := PutcharRequest(CodePoint(s[0])), Requests(s[1..]);
    assert Requests(s) == [first] + rest;
    ConsPrefix(log, first, rest, m);
  }

  /** Appending `x` and then the first `m` elements of `rest` appends the
      first `m + 1` elements of `[x] + rest`. */
  lemma ConsPrefix<T>(log: seq<T>, x: T, rest: seq<T>, m: nat)
    requires m <= |rest|
    ensures (log + [x]) + rest[..m] == log + ([x] + rest)[..m + 1]
  {
    assert ([x] + rest)[..m + 1] == [x] + rest[..m];
  }

  /** The reply the firmware gives to the `k`-th call of writing `s` after
      `log`, provided the calls before it were issued. */
  ghost function ReplyTo(respond: seq<Request> -> Reply, log: seq<Request>, s: string, k: nat): Reply
    requires k < |s|
  {
    respond(log + Requests(s)[..k + 1])
  }

  /** The first `n` calls of writing `s` after `log` all succeed. */
  ghost predicate SucceedsUpTo(respond: seq<Request> -> Reply, log: seq<Request>, s: string, n: nat)
    requires n <= |s|
  {
    forall k :: 0 <= k < n ==> ReplyTo(respond, log, s, k).error == 0
  }

  /** Writing `s` after `log` poses, from its second call on, the same
      questions to the firmware as writing `s[1..]` after the first call. */
  lemma ReplyToShift(respond: seq<Request> -> Reply, log: seq<Request>, s: string, k: nat)
    requires 0 < |s| && k < |s| - 1
    ensures ReplyTo(respond, log, s, k + 1)
         == ReplyTo(respond, log + [PutcharRequest(CodePoint(s[0]))], s[1..], k)
  {
    RequestsPrefix(log, s, k + 1);
  }

  /** If every call succeeds, `write_str(s)` issues exactly the `|s|` calls
      carrying the code points of `s`, in order, and returns Ok. */
  lemma {:induction false} WriteStrAllSucceed(respond: seq<Request> -> Reply, log: seq<Request>, s: string)
    requires Conforming(respond)
    requires SucceedsUpTo(respond, log, s, |s|)
    ensures WriteStrSpec(respond, log, s) == Outcome(log + Requests(s), Ok(()))
    decreases |s|
  {
    if s != [] {
      var issued := log + [PutcharRequest(CodePoint(s[0]))];
      assert ReplyTo(respond, log, s, 0).error == 0;
      RequestsPrefix(log, s, 0);
      forall k | 0 <= k < |s| - 1
        ensures ReplyTo(respond, issued, s[1..], k).error == 0
      {
        ReplyToShift(respond, log, s, k);
      }
      WriteStrAllSucceed(respond, issued, s[1..]);
      RequestsPrefix(log, s, |s| - 1);
    }
  }

  /** If the calls before the `k`-th succeed and the `k`-th fails, `write_str`
      stops right after it: `k + 1` calls, a prefix of the full-success
      calls, and the formatter's error whatever the SBI error was. */
  lemma {:induction false} WriteStrFailsAt(respond: seq<Request> -> Reply, log: seq<Request>, s: string, k: nat)
    requires Conforming(respond)
    requires k < |s|
    requires SucceedsUpTo(respond, log, s, k)
    requires ReplyTo(respond, log, s, k).error != 0
    ensures WriteStrSpec(respond, log, s) == Outcome(log + Requests(s)[..k + 1], Err(FmtError))
    decreases k
  {
    var issued := log + [PutcharRequest(CodePoint(s[0]))];
    RequestsPrefix(log, s, 0);
    if k > 0 {
      assert ReplyTo(respond, log, s, 0).error == 0;
      forall j | 0 <= j < k - 1
        ensures ReplyTo(respond, issued, s[1..], j).error == 0
      {
        ReplyToShift(respond, log, s, j);
      }
      ReplyToShift(respond, log, s, k - 1);
      WriteStrFailsAt(respond, issued, s[1..], k - 1);
      RequestsPrefix(log, s, k);
    }
  }

  /** `write_str(s)` returns Ok exactly when every one of its calls succeeds. */
  lemma {:induction false} WriteStrOkIff(respond: seq<Request> -> Reply, log: seq<Request>, s: string)
    requires Conforming(respond)
    ensures WriteStrSpec(respond, log, s).result.Ok? <==> SucceedsUpTo(respond, log, s, |s|)
  {
    if SucceedsUpTo(respond, log, s, |s|) {
      WriteStrAllSucceed(respond, log, s);
    } else {
      var k :| 0 <= k < |s| && ReplyTo(respond, log, s, k).error != 0;
      FirstFailure(respond, log, s, k);
    }
  }

  /** If some call of writing `s` fails, `write_str` returns Err. */
  lemma {:induction false} FirstFailure(respond: seq<Request> -> Reply, log: seq<Request>, s: string, k: nat)
    requires Conforming(respond)
    requires k < |s| && ReplyTo(respond, log, s, k).error != 0
    ensures WriteStrSpec(respond, log, s).result.Err?
    decreases k
  {
    if SucceedsUpTo(respond, log, s, k) {
      WriteStrFailsAt(respond, log, s, k);
    } else {
      var j :| 0 <= j < k && ReplyTo(respond, log, s, j).error != 0;
      FirstFailure(respond, log, s, j);
    }
  }

  /** Writing "Hi" issues a call for 'H' (72) and then one for 'i' (105), each
      with function id 0 and extension id 1; if the second fails, nothing
      else is issued and the write fails. */
  lemma HiSecondCallFails(respond: seq<Request> -> Reply, log: seq<Request>)
    requires Conforming(respond)
    requires respond(log + [PutcharRequest(72)]).error == 0
    requires respond(log + [PutcharRequest(72), PutcharRequest(105)]).error != 0
    ensures WriteStrSpec(respond, log, "Hi")
         == Outcome(log + [PutcharRequest(72), PutcharRequest(105)], Err(FmtError))
  {
    assert "Hi"[1..] == "i";
    assert log + [PutcharRequest(72)] + [PutcharRequest(105)]
        == log + [PutcharRequest(72), PutcharRequest(105)];
  }

  /** `ConsoleWriter::write_str`: one `putchar` per character of `s`, in
      order, returning at the first call that fails. */
  method WriteStr(fw: Firmware, s: string) returns (r: FmtResult)
    requires fw.Valid()
    modifies fw
    ensures Outcome(fw.log, r) == WriteStrSpec(fw.respond, old(fw.log), s)
  {
    var i := 0;
    while i < |s|
      invariant 0 <= i <= |s|
      invariant WriteStrSpec(fw.respond, old(fw.log), s) == WriteStrSpec(fw.respond, fw.log, s[i..])
    {
      var res := Putchar(fw, CodePoint(s[i]));
      if res.Err? {
        return Err(FromSbiError(res.error));
      }
      assert s[i..][1..] == s[i + 1..];
      i := i + 1;
    }
    return Ok(());
  }
}
