# os1k-rs boot core, modelled in Dafny

A model of the sequential logic of `src/main.rs` of os1k-rs, a bare-metal
32-bit RISC-V supervisor-mode kernel that runs under SBI firmware:

- **Firmware call gateway** (`sbi.dfy`, module `Sbi`): the thirteen standard
  SBI error kinds with their discriminants -1 … -13 (chapter 3, Binary
  Encoding, of the RISC-V SBI specification), the decoding of the firmware's
  `(error, value)` reply, the eight-register call record, `sbi_call` and
  `putchar` (the legacy Console Putchar call, extension id 1, function id 0,
  section 5.2 of the RISC-V SBI specification).
- **Console writer** (`console.dfy`, module `Console`):
  `ConsoleWriter::write_str`, which issues one `putchar` per character and
  stops at the first call that fails, and the conversion of every SBI error
  to the formatter's single error value.
- **BSS zeroing** (`memory.dfy`, module `Memory`): `memset` and the block of
  `kernel_main` that zeroes `[__bss, __bss_end)`.
- `results.dfy` (module `Results`) holds the `Result<T, E>` type and the
  32-bit signed integer type `i32` the firmware interface uses.

The firmware is the one thing the kernel cannot see into. It is modelled by
the class `Sbi.Firmware`: `log` is the sequence of calls issued so far, and
the reply to each call is given by a fixed function `respond` of the whole
call history up to and including that call. `Firmware.Ecall` stands for the
`ecall` instruction. Every statement about `write_str` is made for an
arbitrary such firmware.

Memory is one `array<bv8>`; an address is an index into it. The linker
symbols `__bss` and `__bss_end` become the parameters `bss` and `bssEnd`.

The code has no trap vector, trap frame, trap entry/exit sequence or trap
dispatcher, so none is modelled; this model follows the code. For firmware
error codes outside -13 … -1 the code reinterprets the raw integer as an
`SbiError` (undefined behaviour) rather than reporting an "unknown" kind.
The model follows the code here too: decoding requires a defined reply
(`Sbi.Defined`), and a firmware must answer every call with one
(`Sbi.Conforming`).

## Model

| member | source | states |
|---|---|---|
| `Sbi.Code` | src/main.rs:19-35 | every error kind's discriminant lies in -13 … -1 |
| `Sbi.ErrorOf` | src/main.rs:19-35 | reinterpreting a code in -13 … -1 yields the kind whose discriminant is that code (code → kind → code is the identity) |
| `Sbi.CodeInjective` | src/main.rs:19-35 | distinct error kinds have distinct discriminants |
| `Sbi.ErrorOfCode` | src/main.rs:19-35 | kind → code → kind is the identity, so the table is a bijection between the thirteen kinds and -13 … -1 |
| `Sbi.Decode` | src/main.rs:73-77 | a reply is decoded to success exactly when its error is 0, success carries the reply's value unchanged, and a failure carries the kind whose discriminant is the reply's error |
| `Sbi.DecodeExact` | src/main.rs:73-77 | a defined reply decodes to the error kind `e` if and only if its error code is `e`'s discriminant |
| `Sbi.DecodeExamples` | src/main.rs:73-76 | error 0 gives success with the value unchanged; -3 gives InvalidParam; -12 gives Timeout |
| `Sbi.Firmware.Ecall` | src/main.rs:58-71 | the trapping call appends exactly the given eight-register request to the firmware's log and returns the firmware's reply to that history |
| `Sbi.SbiCall` | src/main.rs:47-79 | one call is issued, carrying the eight arguments in order (six data, fid, eid), and its reply is returned decoded |
| `Sbi.PutcharRequest` | src/main.rs:82 | the Console Putchar request for `c` carries `c` in a0, zero in a1 … a5, function id 0 and extension id 1 |
| `Sbi.Putchar` | src/main.rs:81-83 | exactly one call is issued, the Console Putchar request for `c`, and that call's decoded reply is returned unchanged |
| `Console.FromSbiError` | src/main.rs:37-41 | every SBI error kind maps to the one formatter error |
| `Console.CodePoint` | src/main.rs:90 | the character's conversion to `i32` is its Unicode code point |
| `Console.Requests` | src/main.rs:89-90 | the full-success call sequence of `s` has one call per character |
| `Console.RequestsAt` | src/main.rs:81-83 | the `k`-th full-success call of `s` is the Console Putchar call for the code point of `s[k]` |
| `Console.WriteStrSpec` | src/main.rs:88-93 | the calls `write_str` issues are a prefix of the full-success sequence; on Ok they are all of it; on Err at least one was issued and the last one was answered with an error |
| `Console.WriteStrAllSucceed` | src/main.rs:88-93 | if every call succeeds, exactly the `\|s\|` calls for the characters of `s` are issued, in order, and the result is Ok |
| `Console.WriteStrFailsAt` | src/main.rs:37-41 | if calls 0 … k-1 succeed and call k fails, exactly k+1 calls are issued, a prefix of the full-success sequence, and the result is the formatter's error whatever the SBI error kind |
| `Console.WriteStrOkIff` | src/main.rs:88-93 | `write_str` returns Ok if and only if every call it would issue for `s` succeeds |
| `Console.FirstFailure` | src/main.rs:89-90 | if any call for `s` fails, `write_str` returns Err |
| `Console.HiSecondCallFails` | src/main.rs:88-93 | writing "Hi" issues the call with a0 = 72 and then the call with a0 = 105 (fid 0, eid 1 each); if the second fails, no third call is issued and the result is Err |
| `Console.WriteStr` | src/main.rs:87-94 | the loop over the characters leaves exactly the log and returns exactly the result that `WriteStrSpec` describes |
| `Memory.Filled` | src/main.rs:15-17 | filling `len` bytes from `start` sets each of them to the value and keeps every other byte |
| `Memory.Memset` | src/main.rs:15-17 | afterwards memory is the old memory filled at `[buf, buf+len)`: those bytes hold `value` and no other byte changed |
| `Memory.ZeroBss` | src/main.rs:120-125 | given `bss <= bssEnd`, the `bssEnd - bss` bytes of `[bss, bssEnd)` are all zero afterwards and no byte outside that range changes |

## Left out

- The `ecall` inline assembly and register binding: replaced by the firmware oracle `Sbi.Firmware` (`respond` plus `log`).
- Firmware replies whose error is outside 0 and -13 … -1: undefined behaviour in the code, excluded by `Sbi.Defined` and `Sbi.Conforming` rather than modelled.
- `boot`: it only loads the stack pointer from `__stack_top` and jumps; nothing about it can be stated beyond that.
- The `print!` macro, `core::fmt::write`, the `.unwrap()` on its result and the panic handler's formatting of `PanicInfo`: library formatting outside this model.
- The two `loop {}` halts at the end of `panic` and `kernel_main`: non-terminating by design.
- Memory.Memset: the order and number of the individual stores are not stated; only the final memory contents are.
- The linker symbols `__stack_top`, `__bss`, `__bss_end`: opaque addresses, represented as parameters.
- Memory.ZeroBss: requires `bss <= bssEnd`; the code's `bss_end as usize - bss as usize` would underflow otherwise; the code assumes `__bss <= __bss_end`.
- Console.CodePoint: the code's `c as i32` cannot wrap, since every Unicode scalar value is below 0x110000, so no wrap-around is modelled.
- Trap vector installation, trap entry/exit register save and restore, the trap dispatcher and the panic reporter's trap diagnostics: no code for them exists in `src/main.rs`.
