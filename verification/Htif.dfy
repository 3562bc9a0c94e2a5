/** The host-target interface: two 64-bit mailboxes in target memory, the loop that
    serves them, and the devices behind it. */
module Htif {
  // ------------------------------------------------------------ command fields

  const MAX_COMMANDS: nat := 256
  const MAX_DEVICES: nat := 256

  function DeviceOf(tohost: bv64): bv64 { tohost >> 56 }

  function CommandOf(tohost: bv64): bv64 { (tohost >> 48) & 0xff }

  function Payload(tohost: bv64): bv64 { (tohost << 16) >> 16 }

  /** What respond enqueues. */
  function Response(tohost: bv64, resp: bv64): bv64 {
    ((tohost >> 48) << 48) | ((resp << 16) >> 16)
  }

  /** A response names the device and command it answers, and carries 48 bits. */
  lemma ResponseFields(tohost: bv64, resp: bv64)
    ensures DeviceOf(Response(tohost, resp)) == DeviceOf(tohost)
    ensures CommandOf(Response(tohost, resp)) == CommandOf(tohost)
    ensures Payload(Response(tohost, resp)) == Payload(resp)
  {
  }

  /** The three fields are the whole word. */
  lemma FieldsDetermine(x: bv64, y: bv64)
    ensures x == y <==> DeviceOf(x) == DeviceOf(y) && CommandOf(x) == CommandOf(y) && Payload(x) == Payload(y)
  {
  }

  /** And these are their places: eight bits of device on top, eight of command, 48 of payload. */
  lemma FieldsAre(x: bv64)
    ensures (DeviceOf(x) << 56) | (CommandOf(x) << 48) | Payload(x) == x
    ensures DeviceOf(x) < 256 && CommandOf(x) < 256 && Payload(x) < 0x1_0000_0000_0000
  {
  }

  /** Zero in fromhost means empty, so exactly these responses would be invisible. */
  lemma ResponseInvisible(tohost: bv64, resp: bv64)
    ensures Response(tohost, resp) == 0 <==> DeviceOf(tohost) == 0 && CommandOf(tohost) == 0 && Payload(resp) == 0
  {
  }

  predicate SameTag(command: bv64, response: bv64) {
    DeviceOf(command) == DeviceOf(response) && CommandOf(command) == CommandOf(response)
  }

  lemma Tagged(tohost: bv64, resp: bv64)
    ensures SameTag(tohost, Response(tohost, resp))
    ensures Payload(resp) != 0 ==> Response(tohost, resp) != 0
    ensures DeviceOf(tohost) != 0 ==> Response(tohost, resp) != 0
  {
    ResponseFields(tohost, resp);
    ResponseInvisible(tohost, resp);
  }

  /** The console's reply to a read. */
  function CharReply(ch: bv64): bv64 { 0x100 | ch }

  /** Bit 8 tells a character from nothing; the character is below it. */
  lemma CharReplyIs(ch: bv64)
    requires ch < 256
    ensures CharReply(ch) == 256 + ch
  {
  }

  lemma SmallPayloads(ch: bv64)
    requires ch < 256
    ensures Payload(1) == 1 && Payload(0x100 | ch) == 0x100 | ch && 0x100 | ch != 0
  {
  }

  // ----------------------------------------------------------------- exit codes

  /** int exitcode = payload: the low 32 bits, as a signed number. */
  function ToInt(x: bv64): int {
    var low := (x & 0xffff_ffff) as int;
    if low < 0x8000_0000 then low else low - 0x1_0000_0000
  }

  /** What sys_exit stores. */
  function ExitWord(code: bv64): int { ToInt((code << 1) | 1) }

  /** exit_code(): an arithmetic shift right by one. */
  function ExitCode(exitcode: int): int { exitcode / 2 }

  /** A test verdict always ends the loop, and reads as success exactly if bits 1 to 31
      of the payload are zero, whatever lies above them. */
  lemma VerdictMeaning(payload: bv64)
    requires payload & 1 == 1
    ensures ToInt(payload) != 0
    ensures ExitCode(ToInt(payload)) == 0 <==> payload & 0xffff_fffe == 0
  {
    LowWord(payload);
    var low := payload & 0xffff_ffff;
    assert low as int == 1 <==> low == 1;
    assert low as int == 0 <==> low == 0;
  }

  lemma LowWord(payload: bv64)
    requires payload & 1 == 1
    ensures payload & 0xffff_ffff != 0
    ensures payload & 0xffff_ffff == 1 <==> payload & 0xffff_fffe == 0
  {
  }

  /** A program that exits reports success exactly with a code whose low 31 bits are zero. */
  lemma ExitMeaning(code: bv64)
    ensures ExitWord(code) != 0
    ensures ExitCode(ExitWord(code)) == 0 <==> code & 0x7fff_ffff == 0
  {
    ShiftedCode(code);
    VerdictMeaning((code << 1) | 1);
    hide ToInt;
  }

  lemma ShiftedCode(code: bv64)
    ensures ((code << 1) | 1) & 1 == 1
    ensures ((code << 1) | 1) & 0xffff_fffe == 0 <==> code & 0x7fff_ffff == 0
  {
  }

  /** exit_code() halves, rounding down, negative numbers too. */
  lemma ExitHalves(n: int)
    ensures 2 * ExitCode(n) <= n < 2 * ExitCode(n) + 2
  {
  }

  /** The low 31 bits as a signed number. */
  function Signed31(x: bv64): int {
    var low := (x % 0x8000_0000) as int;
    if low < 0x4000_0000 then low else low - 0x8000_0000
  }

  lemma LowOfShifted(code: bv64)
    ensures (((code << 1) | 1) & 0xffff_ffff) as int == 2 * ((code % 0x8000_0000) as int) + 1
  {
  }

  lemma OddWord(payload: bv64)
    requires payload & 1 == 1
    ensures ((payload >> 1) << 1) | 1 == payload
  {
  }

  /** A word with its lowest bit set, as a signed number of 32 bits. */
  lemma ShiftedWord(code: bv64, low: int)
    requires low == ((code % 0x8000_0000) as int)
    ensures ToInt((code << 1) | 1) == 2 * (if low < 0x4000_0000 then low else low - 0x8000_0000) + 1
  {
    LowOfShifted(code);
  }

  /** An exit code is read back as itself, cut to 31 bits. */
  lemma ExitRecovers(code: bv64)
    ensures ExitCode(ExitWord(code)) == Signed31(code)
  {
    hide ToInt;
    ShiftedWord(code, (code % 0x8000_0000) as int);
  }

  /** A verdict is read back as the payload without its lowest bit, cut to 31 bits. */
  lemma VerdictRecovers(payload: bv64)
    requires payload & 1 == 1
    ensures ExitCode(ToInt(payload)) == Signed31(payload >> 1)
  {
    hide ToInt, ExitCode, Signed31;
    OddWord(payload);
    ExitRecovers(payload >> 1);
  }

  /** For instance with this one. */
  lemma LargeFailureLooksLikeSuccess()
    ensures var code: bv64 := 0x1_0000_0000; code != 0 && ExitCode(ExitWord(code)) == 0
  {
  }

  // ---------------------------------------------------------------- the mailboxes

  /** What a mailbox holds, as a sequence: zero means empty. */
  function Held(box: bv64): seq<bv64> {
    if box == 0 then [] else [box]
  }

  /** The two words in target memory. Before each host access the target may act, any
      number of times: it posts to tohost only when that is zero, and only ever clears
      fromhost. */
  /** What the host has found in tohost, without the times it was empty. */
  function NonZero(looks: seq<bv64>): seq<bv64> {
    if looks == [] then [] else NonZero(looks[..|looks| - 1]) + Held(looks[|looks| - 1])
  }

  lemma NonZeroAppend(looks: seq<bv64>, v: bv64)
    ensures NonZero(looks + [v]) == NonZero(looks) + Held(v)
  {
    assert (looks + [v])[..|looks|] == looks;
  }

  class Mailbox {
    var tohost: bv64
    var fromhost: bv64
    ghost var posted: seq<bv64>      // by the target, to tohost
    ghost var looks: seq<bv64>       // what the host found in tohost, each time
    ghost var taken: seq<bv64>       // by the host, out of tohost
    ghost var written: seq<bv64>     // by the host, to fromhost
    ghost var consumed: seq<bv64>    // by the target, out of fromhost

    constructor ()
      ensures Conserved() && Heeded() && taken == [] && written == []
    {
      tohost, fromhost := 0, 0;
      posted, looks, taken, written, consumed := [], [], [], [], [];
    }

    /** Nothing posted or written is lost or repeated. */
    ghost predicate Conserved()
      reads this
    {
      posted == taken + Held(tohost) && written == consumed + Held(fromhost)
    }

    /** Every word found in tohost was taken. */
    ghost predicate Heeded()
      reads this
    {
      NonZero(looks) == taken
    }

    /** What the target leaves alone. */
    twostate predicate TargetOnly()
      reads this
    {
      && Conserved() && taken == old(taken) && written == old(written)
      && (old(tohost) != 0 ==> tohost == old(tohost) && posted == old(posted))
      && (old(fromhost) == 0 ==> fromhost == 0)
    }

    method TargetActs()
      requires Conserved()
      modifies this
      ensures TargetOnly() && looks == old(looks)
    {
      var steps: nat := *;
      while steps > 0
        invariant TargetOnly() && looks == old(looks)
      {
        var posts: bool := *;
        var x: bv64 := *;
        if posts && tohost == 0 && x != 0 {
          tohost := x;
          posted := posted + [x];
        } else if !posts && fromhost != 0 {
          consumed := consumed + [fromhost];
          fromhost := 0;
        }
        steps := steps - 1;
      }
    }

    method ReadTohost() returns (v: bv64)
      requires Conserved()
      modifies this
      ensures TargetOnly() && v == tohost && looks == old(looks) + [v]
    {
      TargetActs();
      v := tohost;
      looks := looks + [v];
    }

    method ReadFromhost() returns (v: bv64)
      requires Conserved()
      modifies this
      ensures TargetOnly() && v == fromhost && looks == old(looks)
    {
      TargetActs();
      v := fromhost;
    }

    /** Clears tohost: what was read from it is what is taken. */
    method ClearTohost()
      requires Conserved() && tohost != 0
      modifies this
      ensures Conserved() && tohost == 0 && written == old(written)
      ensures taken == old(taken) + [old(tohost)] && posted == old(posted) && looks == old(looks)
    {
      TargetActs();
      taken := taken + [tohost];
      tohost := 0;
    }

    /** Never over a response that the target has not consumed. */
    method WriteFromhost(v: bv64)
      requires Conserved() && fromhost == 0 && v != 0
      modifies this
      ensures Conserved() && written == old(written) + [v] && fromhost == v && taken == old(taken)
      ensures consumed == old(written) && looks == old(looks)
    {
      TargetActs();
      fromhost := v;
      written := written + [v];
    }
  }

  // ------------------------------------------------------------------ the devices

  /** The devices the host may have: an unused slot, the system call proxy, the console,
      and those added on the command line, with a name and names of their first commands. */
  datatype Device = NullDevice | SyscallProxy | Console | Dynamic(id: string, names: seq<string>)

  const IDENTITY_SIZE: nat := 64

  /** What register_command and handle_identify assert of every name. */
  predicate Nameable(name: string) {
    |name| < IDENTITY_SIZE && forall i :: 0 <= i < |name| ==> name[i] != '\0'
  }

  predicate WellNamed(dev: Device) {
    dev.Dynamic? ==> Nameable(dev.id) && forall i :: 0 <= i < |dev.names| ==> Nameable(dev.names[i])
  }

  /** What a device answers to identify: its own name for 255, otherwise that of a command. */
  function NameOf(dev: Device, what: nat): (name: string)
    requires WellNamed(dev)
    ensures Nameable(name)
  {
    if what == MAX_COMMANDS - 1 then
      match dev
      case NullDevice => ""
      case SyscallProxy => "syscall_proxy"
      case Console => "bcd"
      case Dynamic(id, _) => id
    else
      match dev
      case NullDevice => ""
      case SyscallProxy => if what == 0 then "syscall" else ""
      case Console => if what == 0 then "read" else if what == 1 then "write" else ""
      case Dynamic(_, names) => if what < |names| then names[what] else ""
  }

  /** The names of the built-in devices and of their commands, and no others. */
  lemma NamesAre(what: nat)
    ensures NameOf(SyscallProxy, what) == match what case 0 => "syscall" case 255 => "syscall_proxy" case _ => ""
    ensures NameOf(Console, what) == match what case 0 => "read" case 1 => "write" case 255 => "bcd" case _ => ""
    ensures NameOf(NullDevice, what) == ""
  {
  }

  /** A name in its field of 64 characters, the rest of which is zero. */
  function NameBlock(name: string): (block: string)
    requires Nameable(name)
    ensures |block| == IDENTITY_SIZE
  {
    name + seq(IDENTITY_SIZE - |name|, _ => '\0')
  }

  /** The text up to the first NUL. */
  function TextOf(block: string): string {
    if block == "" || block[0] == '\0' then "" else [block[0]] + TextOf(block[1..])
  }

  /** The target reads the name out of the block. */
  lemma NameRead(name: string)
    requires Nameable(name)
    ensures |NameBlock(name)| == 64 && TextOf(NameBlock(name)) == name
  {
    TextUpTo(name, seq(IDENTITY_SIZE - |name|, _ => '\0'));
  }

  lemma {:induction false} TextUpTo(name: string, rest: string)
    requires (forall i :: 0 <= i < |name| ==> name[i] != '\0') && rest != "" && rest[0] == '\0'
    ensures TextOf(name + rest) == name
  {
    if name == "" {
      assert name + rest == rest;
    } else {
      assert (name + rest)[1..] == name[1..] + rest;
      TextUpTo(name[1..], rest);
    }
  }

  class DeviceList {
    const devices: array<Device>
    var numDevices: nat

    constructor ()
      ensures Valid() && fresh(devices) && numDevices == 0
      ensures forall i :: 0 <= i < MAX_COMMANDS ==> devices[i].NullDevice?
    {
      devices := new Device[MAX_COMMANDS](_ => NullDevice);
      numDevices := 0;
    }

    ghost predicate Valid()
      reads this, devices
    {
      && devices.Length == MAX_COMMANDS && numDevices < MAX_DEVICES
      && (forall i :: numDevices <= i < MAX_COMMANDS ==> devices[i].NullDevice?)
      && forall i :: 0 <= i < MAX_COMMANDS ==> WellNamed(devices[i])
    }

    method RegisterDevice(dev: Device)
      requires Valid() && numDevices + 1 < MAX_DEVICES && WellNamed(dev)
      modifies this, devices
      ensures Valid() && numDevices == old(numDevices) + 1
      ensures devices[..numDevices] == old(devices[..numDevices]) + [dev]
    {
      numDevices := numDevices + 1;
      devices[numDevices - 1] := dev;
    }

    /** The order that keeps every response visible: the proxy and the console come first. */
    ghost predicate Registered()
      reads this, devices
    {
      && Valid() && numDevices >= 2 && devices[0].SyscallProxy? && devices[1].Console?
      && forall i :: 2 <= i < MAX_COMMANDS ==> devices[i].Dynamic? || devices[i].NullDevice?
    }

    method RegisterAll(dynamicDevices: seq<Device>)
      requires Valid() && numDevices == 0 && |dynamicDevices| + 2 < MAX_DEVICES
      requires forall i :: 0 <= i < |dynamicDevices| ==> dynamicDevices[i].Dynamic? && WellNamed(dynamicDevices[i])
      modifies this, devices
      ensures Registered() && devices[..numDevices] == [SyscallProxy, Console] + dynamicDevices
    {
      RegisterDevice(SyscallProxy);
      RegisterDevice(Console);
      var i := 0;
      while i < |dynamicDevices|
        invariant i <= |dynamicDevices| && Valid() && numDevices == 2 + i
        invariant devices[..numDevices] == [SyscallProxy, Console] + dynamicDevices[..i]
      {
        RegisterDevice(dynamicDevices[i]);
        i := i + 1;
      }
      ghost var all := [SyscallProxy, Console] + dynamicDevices;
      assert devices[..numDevices] == all;
      assert forall k :: 0 <= k < numDevices ==> devices[k] == all[k];
    }
  }

  // -------------------------------------------------------------------- the books

  predicate IsProxyCommand(command: bv64) {
    DeviceOf(command) == 0 && CommandOf(command) == 0
  }

  predicate IsConsoleRead(command: bv64) {
    DeviceOf(command) == 1 && CommandOf(command) == 0
  }

  /** The reads from the console among some commands, in order. */
  function ConsoleReads(commands: seq<bv64>): seq<bv64> {
    if commands == [] then []
    else
      var last := commands[|commands| - 1];
      ConsoleReads(commands[..|commands| - 1]) + if IsConsoleRead(last) then [last] else []
  }

  lemma ConsoleReadsAppend(commands: seq<bv64>, c: bv64)
    ensures ConsoleReads(commands + [c]) == ConsoleReads(commands) + if IsConsoleRead(c) then [c] else []
  {
    assert (commands + [c])[..|commands|] == commands;
  }

  /** Every command dispatched, those that were answered (with what, in the same order)
      and those that get no answer. */
  datatype Books = Books(dispatched: seq<bv64>, answered: seq<bv64>, responses: seq<bv64>, silent: seq<bv64>)

  ghost predicate Balanced(b: Books, pending: seq<bv64>) {
    && multiset(b.dispatched) == multiset(b.answered) + multiset(b.silent) + multiset(pending)
    && |b.responses| == |b.answered|
    && (forall k :: 0 <= k < |b.answered| ==> SameTag(b.answered[k], b.responses[k]) && b.responses[k] != 0)
    && ConsoleReads(b.dispatched) == ConsoleReads(b.answered) + pending
    && (forall k :: 0 <= k < |pending| ==> IsConsoleRead(pending[k]))
  }

  lemma Silence(b: Books, pending: seq<bv64>, c: bv64)
    requires Balanced(b, pending) && !IsConsoleRead(c)
    ensures Balanced(b.(dispatched := b.dispatched + [c], silent := b.silent + [c]), pending)
  {
    ConsoleReadsAppend(b.dispatched, c);
  }

  lemma Answer(b: Books, pending: seq<bv64>, c: bv64, response: bv64)
    requires Balanced(b, pending) && !IsConsoleRead(c) && SameTag(c, response) && response != 0
    ensures Balanced(b.(dispatched := b.dispatched + [c], answered := b.answered + [c],
      responses := b.responses + [response]), pending)
  {
    hide SameTag, IsConsoleRead, ConsoleReads;
    ConsoleReadsAppend(b.dispatched, c);
    ConsoleReadsAppend(b.answered, c);
  }

  lemma Postpone(b: Books, pending: seq<bv64>, c: bv64)
    requires Balanced(b, pending) && IsConsoleRead(c)
    ensures Balanced(b.(dispatched := b.dispatched + [c]), pending + [c])
  {
    ConsoleReadsAppend(b.dispatched, c);
  }

  lemma AnswerPending(b: Books, pending: seq<bv64>, response: bv64)
    requires Balanced(b, pending) && pending != [] && SameTag(pending[0], response) && response != 0
    ensures Balanced(b.(answered := b.answered + [pending[0]], responses := b.responses + [response]), pending[1..])
  {
    hide SameTag, IsConsoleRead, ConsoleReads;
    ConsoleReadsAppend(b.answered, pending[0]);
    MoveOne(b.answered, b.silent, pending);
    assert IsConsoleRead(pending[0]);
    RestOf(pending);
    Regrouped(ConsoleReads(b.answered), pending);
  }

  lemma MoveOne(answered: seq<bv64>, silent: seq<bv64>, pending: seq<bv64>)
    requires pending != []
    ensures multiset(answered + [pending[0]]) + multiset(silent) + multiset(pending[1..])
      == multiset(answered) + multiset(silent) + multiset(pending)
  {
    assert pending == [pending[0]] + pending[1..];
  }

  lemma RestOf(pending: seq<bv64>)
    requires pending != [] && forall k :: 0 <= k < |pending| ==> IsConsoleRead(pending[k])
    ensures forall k :: 0 <= k < |pending[1..]| ==> IsConsoleRead(pending[1..][k])
  {
    hide IsConsoleRead;
  }

  lemma Regrouped(front: seq<bv64>, pending: seq<bv64>)
    requires pending != []
    ensures front + pending == (front + [pending[0]]) + pending[1..]
  {
  }

  // ------------------------------------------------------------------------ the host

  /** What the host writes to target memory besides the mailboxes: the name asked for, or
      the eight words of a system call with the result in the first. */
  datatype Store = Name(addr: nat, block: string) | Frame(addr: nat, words: seq<bv64>)

  const SYS_EXIT: bv64 := 93

  /** A character as it comes from the terminal. */
  type Char = c: bv64 | c < 256 witness 0

  /** The calls that the proxy knows. */
  predicate Known(n: bv64) {
    n in {17, 25, 34, 35, 37, 38, 46, 48, 49, 56, 57, 62, 63, 64, 67, 68, 79, 80, SYS_EXIT, 1039, 2011}
  }

  /** The numbers of the system calls, one range after the other. */
  lemma KnownNumbers(n: bv64)
    ensures SYS_EXIT == 93
    ensures Known(n) <==>
      || n == 17 || n == 25 || 34 <= n <= 35 || 37 <= n <= 38 || n == 46 || 48 <= n <= 49 || 56 <= n <= 57
      || 62 <= n <= 64 || 67 <= n <= 68 || 79 <= n <= 80 || n == 93 || n == 1039 || n == 2011
  {
  }

  class Server {
    const mailbox: Mailbox
    const deviceList: DeviceList
    var exitcode: int
    var aborted: bool              // an assertion or exception in a device ended the run
    var fromhostQueue: seq<bv64>
    var pendingReads: seq<bv64>
    var typed: seq<Char>           // at the terminal, and not read yet
    var output: seq<bv64>          // what has been written to the console
    var stores: seq<Store>         // what has been written to target memory
    ghost var books: Books
    ghost var ticks: nat           // how often the devices have been ticked

    constructor (mailbox: Mailbox, deviceList: DeviceList)
      requires mailbox.Conserved() && mailbox.taken == [] && mailbox.written == [] && deviceList.Registered()
      ensures this.mailbox == mailbox && this.deviceList == deviceList && Served() && exitcode == 0 && !aborted
    {
      this.mailbox, this.deviceList := mailbox, deviceList;
      exitcode, aborted := 0, false;
      fromhostQueue, pendingReads, output, stores := [], [], [], [];
      books := Books([], [], [], []);
      typed, ticks := [], 0;
    }

    /** Between mailbox accesses: every word taken has been dispatched, the responses are
        the words written and those still queued, and the books balance. */
    ghost predicate Served()
      reads this, mailbox, deviceList, deviceList.devices
    {
      && mailbox.Conserved() && deviceList.Registered()
      && mailbox.taken == books.dispatched
      && books.responses == mailbox.written + fromhostQueue
      && Balanced(books, pendingReads)
    }

    /** A word has been taken and not yet dispatched. */
    ghost predicate InHand(c: bv64)
      reads this, mailbox, deviceList, deviceList.devices
    {
      && mailbox.Conserved() && deviceList.Registered()
      && mailbox.taken == books.dispatched + [c]
      && books.responses == mailbox.written + fromhostQueue
      && Balanced(books, pendingReads)
    }

    /** c has been answered, at once, with resp. */
    twostate predicate Answered(c: bv64, resp: bv64)
      reads this
    {
      books.answered == old(books.answered) + [c] && books.responses == old(books.responses) + [Response(c, resp)]
    }

    twostate predicate Unanswered()
      reads this
    {
      books.answered == old(books.answered) && books.responses == old(books.responses)
    }

    method Respond(c: bv64, resp: bv64)
      requires InHand(c) && !IsConsoleRead(c) && (Payload(resp) != 0 || DeviceOf(c) != 0)
      modifies this`fromhostQueue, this`books
      ensures Served() && Answered(c, resp)
    {
      hide Balanced, SameTag, Response, Payload, DeviceOf, IsConsoleRead;
      Tagged(c, resp);
      Answer(books, pendingReads, c, Response(c, resp));
      fromhostQueue := fromhostQueue + [Response(c, resp)];
      books := books.(dispatched := books.dispatched + [c], answered := books.answered + [c],
        responses := books.responses + [Response(c, resp)]);
    }

    ghost method Ignore(c: bv64)
      requires InHand(c) && !IsConsoleRead(c)
      modifies this`books
      ensures Served() && Unanswered()
    {
      Silence(books, pendingReads, c);
      books := books.(dispatched := books.dispatched + [c], silent := books.silent + [c]);
    }

    /** The name asked for goes to an aligned address, as 64 bytes. */
    method HandleIdentify(c: bv64, device: Device)
      requires InHand(c) && CommandOf(c) == 255 && WellNamed(device)
      modifies this
      ensures Served() && exitcode == old(exitcode) && pendingReads == old(pendingReads) && output == old(output)
      ensures if IdentifyAligned(c) then aborted == old(aborted) && Answered(c, 1) else aborted && Unanswered()
      ensures stores == old(stores) + if IdentifyAligned(c) then [NameStore(c, device)] else []
      ensures ticks == old(ticks) && typed == old(typed)
    {
      hide Balanced, Response, Payload, SameTag, IsConsoleRead, DeviceOf, CommandOf, IdentifyAligned, NameStore;
      SmallPayloads(0);
      NoConsoleRead(c);
      if !IdentifyAligned(c) {
        aborted := true;
        Ignore(c);
      } else {
        stores := stores + [NameStore(c, device)];
        Respond(c, 1);
      }
    }

    /** Odd payloads are verdicts and get no response; even ones are system calls. frame is
        the eight words found and result what the call gives. */
    method HandleSyscall(c: bv64) returns (ghost frame: seq<bv64>, ghost result: bv64)
      requires InHand(c) && DeviceOf(c) == 0 && CommandOf(c) == 0
      modifies this
      ensures Served() && pendingReads == old(pendingReads) && output == old(output)
      ensures Payload(c) & 1 == 1 ==>
        exitcode == ToInt(Payload(c)) && aborted == old(aborted) && Unanswered() && stores == old(stores)
      ensures Payload(c) & 1 == 0 ==> CallServed(c, frame, result)
      ensures ticks == old(ticks) && typed == old(typed)
    {
      hide Balanced, Response, ToInt, Payload, SameTag, IsConsoleRead, DeviceOf, CommandOf, Known, CallMade;
      SmallPayloads(0);
      NoConsoleRead(c);
      frame, result := [], 0;
      if Payload(c) & 1 != 0 {
        exitcode := ToInt(Payload(c));
        Ignore(c);
        return;
      }
      var known;
      known, frame, result := Dispatch(Payload(c));
      if known {
        Respond(c, 1);
      } else {
        Ignore(c);
      }
    }

    /** An unknown call aborts the host, and nothing else comes of it; a known one is made
        and answered. */
    twostate predicate CallServed(c: bv64, frame: seq<bv64>, result: bv64)
      reads this
    {
      && |frame| == 8 && aborted == (old(aborted) || !Known(frame[0]))
      && (Known(frame[0]) ==>
        Answered(c, 1) && CallMade(Payload(c), frame, result, old(exitcode), exitcode, old(stores), stores))
      && (!Known(frame[0]) ==> Unanswered() && exitcode == old(exitcode) && stores == old(stores))
    }

    /** Eight words of target memory, whatever they are. */
    method ReadFrame() returns (frame: seq<bv64>)
      ensures |frame| == 8
    {
      frame := [];
      while |frame| < 8
        invariant |frame| <= 8
      {
        var word: bv64 := *;
        frame := frame + [word];
      }
    }

    /** A system call: an unknown number ends the run; exit stores its code; the result goes
        back into the first of the eight words. */
    method Dispatch(mm: bv64) returns (known: bool, ghost frame: seq<bv64>, ghost result: bv64)
      modifies this`aborted, this`exitcode, this`stores
      ensures |frame| == 8 && known == Known(frame[0]) && aborted == (old(aborted) || !known)
      ensures Known(frame[0]) ==> CallMade(mm, frame, result, old(exitcode), exitcode, old(stores), stores)
      ensures !Known(frame[0]) ==> exitcode == old(exitcode) && stores == old(stores)
    {
      hide ExitWord, Known;
      var magicmem := ReadFrame();
      frame := magicmem;
      result := 0;
      known := Known(magicmem[0]);
      if !known {
        aborted := true;
        return;
      }
      var value: bv64 := *;
      if magicmem[0] == SYS_EXIT {
        exitcode := ExitWord(magicmem[1]);
        value := 0;
      }
      result := value;
      stores := stores + [Frame(mm as nat, magicmem[0 := value])];
    }

    method HandleConsole(c: bv64)
      requires InHand(c) && DeviceOf(c) == 1
      modifies this
      ensures Served()
      ensures Unanswered() && exitcode == old(exitcode) && aborted == old(aborted) && stores == old(stores)
      ensures pendingReads == old(pendingReads) + if CommandOf(c) == 0 then [c] else []
      ensures output == old(output) + if CommandOf(c) == 1 then [Payload(c) & 0xff] else []
      ensures ticks == old(ticks) && typed == old(typed)
    {
      hide Balanced;
      if CommandOf(c) == 0 {
        Postpone(books, pendingReads, c);
        pendingReads := pendingReads + [c];
        books := books.(dispatched := books.dispatched + [c]);
      } else {
        if CommandOf(c) == 1 { output := output + [Payload(c) & 0xff]; }
        Ignore(c);
      }
    }

    ghost function DeviceFor(c: bv64): (device: Device)
      requires deviceList.Valid()
      reads this, deviceList, deviceList.devices
      ensures WellNamed(device)
    {
      DeviceRange(c);
      deviceList.devices[DeviceOf(c) as nat]
    }

    /** frame and result are those of a system call. */
    method HandleCommand(c: bv64) returns (ghost frame: seq<bv64>, ghost result: bv64)
      requires InHand(c)
      modifies this
      ensures Served() && ticks == old(ticks) && typed == old(typed)
      ensures CommandOf(c) == 255 && IdentifyAligned(c) ==>
        Answered(c, 1) && stores == old(stores) + [NameStore(c, DeviceFor(c))]
      ensures CommandOf(c) == 255 && !IdentifyAligned(c) ==> aborted && Unanswered() && stores == old(stores)
      ensures DeviceOf(c) == 0 && CommandOf(c) == 0 && Payload(c) & 1 == 1 ==>
        exitcode == ToInt(Payload(c)) && Unanswered() && stores == old(stores)
      ensures DeviceOf(c) == 0 && CommandOf(c) == 0 && Payload(c) & 1 == 0 ==> CallServed(c, frame, result)
      ensures DeviceOf(c) == 1 && CommandOf(c) != 255 ==> Unanswered()
      ensures CommandOf(c) != 255 && Inert(c) ==> Unanswered()
      ensures pendingReads == old(pendingReads) + if IsConsoleRead(c) then [c] else []
      ensures output == old(output) + if DeviceOf(c) == 1 && CommandOf(c) == 1 then [Payload(c) & 0xff] else []
      ensures exitcode == old(exitcode) || (DeviceOf(c) == 0 && CommandOf(c) == 0)
      ensures CommandOf(c) != 255 && !(DeviceOf(c) == 0 && CommandOf(c) == 0) ==>
        aborted == old(aborted) && stores == old(stores)
    {
      hide Balanced, SameTag, Response, NameStore, IdentifyAligned, ToInt, CallServed, Payload, WellNamed, DeviceOf,
        CommandOf, IsConsoleRead, Answered, Unanswered;
      DeviceRange(c);
      ConsoleReadIs(c);
      frame, result := [], 0;
      var device := deviceList.devices[DeviceOf(c) as nat];
      if CommandOf(c) == 255 {
        HandleIdentify(c, device);
      } else if device.SyscallProxy? && CommandOf(c) == 0 {
        frame, result := HandleSyscall(c);
      } else if device.Console? {
        HandleConsole(c);
      } else if device.Dynamic? {
        HandleDynamic(c);
      } else {
        Ignore(c);
      }
    }

    /** Any answer, or none. */
    method HandleDynamic(c: bv64)
      requires InHand(c) && !IsConsoleRead(c) && DeviceOf(c) != 0
      modifies this`fromhostQueue, this`books
      ensures Served()
    {
      hide Balanced, IsConsoleRead, DeviceOf, Payload;
      var responds: bool := *;
      var tag: bv64 := *;
      if responds {
        Respond(c, tag);
      } else {
        Ignore(c);
      }
    }

    /** Commands that nobody has registered: of a device that is not there, or the proxy's
        other than the system call. */
    ghost predicate Inert(c: bv64)
      requires deviceList.Valid()
      reads this, deviceList, deviceList.devices
    {
      DeviceFor(c).NullDevice? || (DeviceFor(c).SyscallProxy? && CommandOf(c) != 0)
    }

    /** The user of the terminal, at any time. */
    method Type()
      modifies this`typed
      ensures old(typed) <= typed
    {
      var more: seq<Char> := *;
      typed := typed + more;
    }

    /** The first character there, if any, for the oldest read, if any. found is what is
        there when the host looks. */
    method Tick() returns (ghost found: seq<Char>)
      requires Served()
      modifies this
      ensures Served() && exitcode == old(exitcode) && aborted == old(aborted) && ticks == old(ticks) + 1
      ensures stores == old(stores) && output == old(output) && old(typed) <= found
      ensures if old(pendingReads) != [] && found != [] then
          pendingReads == old(pendingReads)[1..] && typed == found[1..]
          && Answered(old(pendingReads)[0], CharReply(found[0]))
        else pendingReads == old(pendingReads) && typed == found && Unanswered()
    {
      hide Balanced, CharReply, Response;
      Type();
      found := typed;
      ticks := ticks + 1;
      if pendingReads != [] && typed != [] {
        var ch := typed[0];
        typed := typed[1..];
        AnswerOldest(ch);
      }
    }

    method AnswerOldest(ch: Char)
      requires Served() && pendingReads != []
      modifies this`pendingReads, this`fromhostQueue, this`books
      ensures Served() && pendingReads == old(pendingReads)[1..] && Answered(old(pendingReads)[0], CharReply(ch))
    {
      var c := pendingReads[0];
      SmallPayloads(ch);
      Tagged(c, CharReply(ch));
      var response := Response(c, CharReply(ch));
      hide Balanced, Response, Payload, SameTag;
      AnswerPending(books, pendingReads, response);
      fromhostQueue := fromhostQueue + [response];
      pendingReads := pendingReads[1..];
      books := books.(answered := books.answered + [c], responses := books.responses + [response]);
    }

    /** The service loop, up to the round in which the host is told to stop, or to the
        command that aborts it. begun is the number of rounds. */
    method Run(rounds: nat) returns (code: int, ghost begun: nat)
      requires Served() && mailbox.Heeded()
      modifies this, mailbox
      ensures Served() && mailbox.Heeded() && code == ExitCode(exitcode)
      ensures mailbox.posted == books.dispatched + Held(mailbox.tohost)
      ensures books.responses == mailbox.consumed + Held(mailbox.fromhost) + fromhostQueue
      ensures forall k :: 0 <= k < |books.responses| ==> books.responses[k] != 0
      ensures begun <= rounds && |mailbox.looks| == |old(mailbox.looks)| + begun
      ensures old(exitcode) != 0 || old(aborted) ==> begun == 0
      ensures exitcode == 0 && !aborted ==> begun == rounds
      ensures exitcode != old(exitcode) ==>
        mailbox.looks != [] && IsProxyCommand(mailbox.looks[|mailbox.looks| - 1])
      ensures ticks == old(ticks) + begun - if aborted && !old(aborted) then 1 else 0
      ensures begun > 0 && !aborted && fromhostQueue != [] ==> mailbox.fromhost != 0
    {
      hide Balanced, NonZero;
      begun := 0;
      var round := 0;
      while round < rounds && exitcode == 0 && !aborted
        invariant Served() && mailbox.Heeded()
        invariant begun == round <= rounds && |mailbox.looks| == |old(mailbox.looks)| + begun
        invariant begun > 0 ==> old(exitcode) == 0 && !old(aborted) && mailbox.looks != []
        invariant begun == 0 ==> exitcode == old(exitcode)
        invariant exitcode != old(exitcode) ==>
          mailbox.looks != [] && IsProxyCommand(mailbox.looks[|mailbox.looks| - 1])
        invariant aborted == old(aborted) && ticks == old(ticks) + begun
        invariant begun > 0 && fromhostQueue != [] ==> mailbox.fromhost != 0
      {
        begun := begun + 1;
        Serve();
        if aborted {
          break;
        }
        ghost var found := Tick();
        DeliverOne();
        round := round + 1;
      }
      ResponsesVisible(books, pendingReads);
      code := ExitCode(exitcode);
    }

    /** One look at tohost, and what it asks for. */
    method Serve()
      requires Served() && mailbox.Heeded()
      modifies this, mailbox
      ensures Served() && mailbox.Heeded() && ticks == old(ticks)
      ensures |mailbox.looks| == |old(mailbox.looks)| + 1
      ensures exitcode == old(exitcode) || IsProxyCommand(mailbox.looks[|mailbox.looks| - 1])
    {
      hide Balanced, NonZero, CallServed, Payload, ToInt, NameStore, IdentifyAligned, Inert, IsConsoleRead, DeviceOf,
        CommandOf, Response;
      var tohost := mailbox.ReadTohost();
      NonZeroAppend(old(mailbox.looks), tohost);
      if tohost != 0 {
        mailbox.ClearTohost();
        ghost var frame, result := HandleCommand(tohost);
      }
    }

    /** At most the oldest queued response goes out, and only when all that went out
        before has been consumed; none waits while fromhost is empty. */
    method DeliverOne()
      requires Served()
      modifies this`fromhostQueue, mailbox
      ensures Served() && books == old(books) && pendingReads == old(pendingReads)
      ensures mailbox.looks == old(mailbox.looks) && mailbox.taken == old(mailbox.taken)
      ensures fromhostQueue != [] ==> mailbox.fromhost != 0
      ensures (fromhostQueue == old(fromhostQueue) && mailbox.written == old(mailbox.written))
        || (old(fromhostQueue) == [mailbox.fromhost] + fromhostQueue && mailbox.consumed == old(mailbox.written))
    {
      hide Balanced;
      ResponsesVisible(books, pendingReads);
      if fromhostQueue != [] {
        var fromhost := mailbox.ReadFromhost();
        if fromhost == 0 {
          assert books.responses[|mailbox.written|] == fromhostQueue[0];
          mailbox.WriteFromhost(fromhostQueue[0]);
          assert fromhostQueue == [fromhostQueue[0]] + fromhostQueue[1..];
          fromhostQueue := fromhostQueue[1..];
        }
      }
    }
  }

  /** What identify writes: the address and the name asked for are the two parts of the payload. */
  function NameStore(c: bv64, device: Device): Store
    requires WellNamed(device)
  {
    Name(Payload(c) as nat / MAX_COMMANDS, NameBlock(NameOf(device, Payload(c) as nat % MAX_COMMANDS)))
  }

  /** A call with these eight words, this result, and these effects on the host. */
  predicate CallMade(mm: bv64, frame: seq<bv64>, result: bv64, before: int, after: int, s: seq<Store>, t: seq<Store>) {
    && |frame| == 8 && Known(frame[0])
    && after == (if frame[0] == SYS_EXIT then ExitWord(frame[1]) else before)
    && (frame[0] == SYS_EXIT ==> result == 0)
    && t == s + [Frame(mm as nat, frame[0 := result])]
  }

  /** The low byte of the payload says what is asked for, the rest where it goes. */
  lemma IdentifyMeaning(c: bv64, device: Device) returns (addr: nat, what: nat)
    requires WellNamed(device)
    ensures Payload(c) as nat == 256 * addr + what && what < 256
    ensures NameStore(c, device) == Name(addr, NameBlock(NameOf(device, what)))
    ensures IdentifyAligned(c) <==> addr % 64 == 0
  {
    var p := Payload(c) as nat;
    addr, what := p / MAX_COMMANDS, p % MAX_COMMANDS;
  }

  predicate IdentifyAligned(c: bv64) {
    (Payload(c) as nat / MAX_COMMANDS) % IDENTITY_SIZE == 0
  }

  lemma ConsoleReadIs(c: bv64)
    ensures IsConsoleRead(c) <==> DeviceOf(c) == 1 && CommandOf(c) == 0
  {
  }

  lemma NoConsoleRead(c: bv64)
    ensures DeviceOf(c) == 0 || CommandOf(c) == 255 ==> !IsConsoleRead(c)
  {
  }

  lemma DeviceRange(c: bv64)
    ensures DeviceOf(c) as nat < MAX_DEVICES
    ensures DeviceOf(c) as nat == 0 <==> DeviceOf(c) == 0
    ensures DeviceOf(c) as nat == 1 <==> DeviceOf(c) == 1
  {
  }

  lemma ResponsesVisible(b: Books, pending: seq<bv64>)
    requires Balanced(b, pending)
    ensures forall k :: 0 <= k < |b.responses| ==> b.responses[k] != 0
  {
  }
}
