/** The firmware call gateway: the eight-register SBI call, the decoding of
    the firmware's (error, value) reply and the thirteen standard SBI error
    kinds of chapter 3 (Binary Encoding) of the RISC-V SBI specification. */
module Sbi {
  import opened Results

  /** The standard SBI error kinds, each with the discriminant the firmware
      reports for it. */
  datatype SbiError =
    | Failed
    | NotSupported
    | InvalidParam
    | Denied
    | InvalidAddress
    | AlreadyAvailable
    | AlreadyStarted
    | AlreadyStopped
    | NoShmem
    | InvalidState
    | BadRange
    | Timeout
    | Io

  /** The value a successful call returns. */
  datatype SbiValue = SbiValue(value: i32)

  type SbiResult = Result<SbiValue, SbiError>

  /** The discriminant of an error kind, as the firmware encodes it. */
  function Code(e: SbiError): (c: i32)
    ensures -13 <= c <= -1
  {
    match e
    case Failed => -1
    case NotSupported => -2
    case InvalidParam => -3
    case Denied => -4
    case InvalidAddress => -5
    case AlreadyAvailable => -6
    case AlreadyStarted => -7
    case AlreadyStopped => -8
    case NoShmem => -9
    case InvalidState => -10
    case BadRange => -11
    case Timeout => -12
    case Io => -13
  }

  /** Reinterpretation of a raw nonzero error code as an error kind. Only the
      thirteen discriminants name a kind; any other code is undefined
      behaviour, so it is excluded here. */
  function ErrorOf(code: i32): (e: SbiError)
    requires -13 <= code <= -1
    ensures Code(e) == code
  {
    if code == -1 then Failed
    else if code == -2 then NotSupported
    else if code == -3 then InvalidParam
    else if code == -4 then Denied
    else if code == -5 then InvalidAddress
    else if code == -6 then AlreadyAvailable
    else if code == -7 then AlreadyStarted
    else if code == -8 then AlreadyStopped
    else if code == -9 then NoShmem
    else if code == -10 then InvalidState
    else if code == -11 then BadRange
    else if code == -12 then Timeout
    else Io
  }

  /** Distinct error kinds have distinct discriminants. */
  lemma CodeInjective(a: SbiError, b: SbiError)
    requires Code(a) == Code(b)
    ensures a == b
  {
  }

  /** Reinterpreting the discriminant of a kind gives back that kind. */
  lemma ErrorOfCode(e: SbiError)
    ensures ErrorOf(Code(e)) == e
  {
  }

  /** The two result registers of a call: a0 holds the error, a1 the value. */
  datatype Reply = Reply(error: i32, value: i32)

  /** A reply whose error is success or one of the thirteen discriminants. */
  predicate Defined(r: Reply) {
    r.error == 0 || -13 <= r.error <= -1
  }

  /** The decoding branch of the call gateway. */
  function Decode(r: Reply): (res: SbiResult)
    requires Defined(r)
    ensures res.Ok? <==> r.error == 0
    ensures res.Ok? ==> res.value == SbiValue(r.value)
    ensures res.Err? ==> Code(res.error) == r.error
  {
    if r.error == 0 then Ok(SbiValue(r.value)) else Err(ErrorOf(r.error))
  }

  /** The decoding is determined by the reply alone: each defined error code
      yields exactly one kind, and every kind is reachable. */
  lemma DecodeExact(r: Reply, e: SbiError)
    requires Defined(r)
    ensures Decode(r) == Err(e) <==> r.error == Code(e)
  {
  }

  /** Two entries of the table, spelled out. */
  lemma DecodeExamples(v: i32)
    ensures Decode(Reply(0, v)) == Ok(SbiValue(v))
    ensures Decode(Reply(-3, v)) == Err(InvalidParam)
    ensures Decode(Reply(-12, v)) == Err(Timeout)
  {
  }

  /** The eight argument registers of a call: six data arguments (a0-a5),
      the function id (a6) and the extension id (a7). */
  datatype Request = Request(
    arg0: i32, arg1: i32, arg2: i32, arg3: i32, arg4: i32, arg5: i32,
    fid: i32, eid: i32)

  /** Extension id of the legacy Console Putchar call (section 5.2 of the
      RISC-V SBI specification); its only function id is 0. */
  const CONSOLE_PUTCHAR_EID: i32 := 1

  /** The request `putchar` issues for a character code `c`: the code in a0,
      the other data registers zero, function id 0 and the Console Putchar
      extension id. */
  function PutcharRequest(c: i32): (r: Request)
    ensures r.arg0 == c
    ensures r.arg1 == 0 && r.arg2 == 0 && r.arg3 == 0 && r.arg4 == 0 && r.arg5 == 0
    ensures r.fid == 0 && r.eid == CONSOLE_PUTCHAR_EID
  {
    Request(c, 0, 0, 0, 0, 0, 0, CONSOLE_PUTCHAR_EID)
  }

  /** A firmware that answers every call with a defined reply. */
  ghost predicate Conforming(respond: seq<Request> -> Reply) {
    forall calls :: Defined(respond(calls))
  }

  /** The firmware as the kernel sees it. `log` holds every call issued so
      far, oldest first; the reply to a call is decided by `respond` from the
      whole history of calls up to and including that call. */
  class Firmware {
    const respond: seq<Request> -> Reply
    var log: seq<Request>

    ghost predicate Valid() {
      Conforming(respond)
    }

    constructor (respond: seq<Request> -> Reply)
      requires Conforming(respond)
      ensures Valid()
      ensures this.respond == respond && log == []
    {
      this.respond := respond;
      log := [];
    }

    /** The trapping instruction: hands `call` to the firmware and returns
        the two result registers. */
    method Ecall(call: Request) returns (reply: Reply)
      modifies this
      ensures log == old(log) + [call]
      ensures reply == respond(log)
    {
      log := log + [call];
      reply := respond(log);
    }
  }

  /** `sbi_call`: one firmware call with the eight given registers, its
      reply decoded. */
  method SbiCall(fw: Firmware,
                 arg0: i32, arg1: i32, arg2: i32, arg3: i32, arg4: i32, arg5: i32,
                 fid: i32, eid: i32)
    returns (r: SbiResult)
    requires fw.Valid()
    modifies fw
    ensures fw.log == old(fw.log) + [Request(arg0, arg1, arg2, arg3, arg4, arg5, fid, eid)]
    ensures r == Decode(fw.respond(fw.log))
  {
    var reply := fw.Ecall(Request(arg0, arg1, arg2, arg3, arg4, arg5, fid, eid));
    r := Decode(reply);
  }

  /** `putchar`: one legacy Console Putchar call carrying `c` in a0, every
      other data register 0, function id 0 and extension id 1; its decoded
      reply is returned unchanged. */
  method Putchar(fw: Firmware, c: i32) returns (r: SbiResult)
    requires fw.Valid()
    modifies fw
    ensures fw.log == old(fw.log) + [PutcharRequest(c)]
    ensures r == Decode(fw.respond(fw.log))
  {
    r := SbiCall(fw, c, 0, 0, 0, 0, 0, 0, CONSOLE_PUTCHAR_EID);
  }
}
