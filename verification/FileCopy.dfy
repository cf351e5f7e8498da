/**
  The stop-and-wait file copy: a sender and a receiver, each a sequential program, over two
  lossless FIFO channels. Every message but the very first waits for its acknowledgement.
 */
module FileCopySpec {

  datatype File = File(name: string, data: string)

  /** A message: its `len` field and what was copied into its payload. */
  datatype Msg = Msg(len: nat, payload: string)

  /** The files to send and MAX_LEN. File names are C strings. */
  datatype Params = Params(files: seq<File>, max: nat)

  ghost predicate ParamsOk(p: Params) {
    p.max > 0 && forall f :: f in p.files ==> '\0' !in f.name
  }

  datatype Sender =
    | SendCount
    | SendName(i: nat) | NameAck(i: nat)
    | SendSize(i: nat) | SizeAck(i: nat)
    | Reading(i: nat, off: nat) | ChunkAck(i: nat, off: nat)
    | SenderDone

  datatype Receiver =
    | WaitCount
    | WaitName(i: nat) | AckName(i: nat, name: string)
    | WaitSize(i: nat, name: string) | AckSize(i: nat, name: string, size: nat)
    | WaitChunk(i: nat, count: nat) | AckChunk(i: nat, count: nat)
    | ReceiverDone

  /** `filesNumber` is the receiver's variable; `copies` holds each file it opened, with what it appended. */
  datatype State = State(
    sender: Sender, receiver: Receiver, filesNumber: nat,
    forward: seq<Msg>, backward: seq<Msg>, copies: seq<File>)

  const START := State(SendCount, WaitCount, 0, [], [], [])

  const ACK := Msg(4, "ACK\0")

  /** What `strcpy` takes from a payload. */
  function CString(payload: string): string {
    if payload == [] || payload[0] == '\0' then [] else [payload[0]] + CString(payload[1..])
  }

  /** How many chunks the receiver expects for a file size. */
  function Chunks(size: nat, max: nat): nat
    requires max > 0
  {
    if size % max == 0 then size / max else size / max + 1
  }

  /** What `read` returns at an offset. */
  function ReadAt(data: string, off: nat, max: nat): string
    requires off <= |data|
  {
    if |data| - off <= max then data[off..] else data[off..off + max]
  }

  function CountMsg(p: Params): Msg { Msg(|p.files|, "number of files\0") }

  function NameMsg(f: File): Msg { Msg(|f.name| + 1, f.name + "\0") }

  function SizeMsg(f: File): Msg { Msg(|f.data|, "file size\0") }

  predicate SenderBlocked(s: State) {
    s.sender.SenderDone? || ((s.sender.NameAck? || s.sender.SizeAck? || s.sender.ChunkAck?) && s.backward == [])
  }

  /** The loop counters stay within the arguments and the file. */
  predicate SenderInRange(p: Params, s: Sender) {
    match s
    case SendName(i) => i <= |p.files|
    case NameAck(i) => i < |p.files|
    case SendSize(i) => i < |p.files|
    case SizeAck(i) => i < |p.files|
    case Reading(i, off) => i < |p.files| && off <= |p.files[i].data|
    case ChunkAck(i, off) => i < |p.files| && off <= |p.files[i].data|
    case _ => true
  }

  /** The sender's next statement. */
  function SenderStep(p: Params, s: State): State
    requires !SenderBlocked(s) && SenderInRange(p, s.sender)
  {
    match s.sender
    case SendCount => s.(sender := SendName(0), forward := s.forward + [CountMsg(p)])
    case SendName(i) =>
      if i < |p.files| then s.(sender := NameAck(i), forward := s.forward + [NameMsg(p.files[i])])
      else s.(sender := SenderDone)
    case NameAck(i) => s.(sender := SendSize(i), backward := s.backward[1..])
    case SendSize(i) => s.(sender := SizeAck(i), forward := s.forward + [SizeMsg(p.files[i])])
    case SizeAck(i) => s.(sender := Reading(i, 0), backward := s.backward[1..])
    case Reading(i, off) =>
      var chunk := ReadAt(p.files[i].data, off, p.max);
      if chunk == [] then s.(sender := SendName(i + 1))
      else s.(sender := ChunkAck(i, off + |chunk|), forward := s.forward + [Msg(|chunk|, chunk)])
    case ChunkAck(i, off) => s.(sender := Reading(i, off), backward := s.backward[1..])
  }

  predicate ReceiverBlocked(s: State) {
    match s.receiver
    case ReceiverDone => true
    case WaitCount => s.forward == []
    case WaitName(i) => i < s.filesNumber && s.forward == []
    case WaitSize(_, _) => s.forward == []
    case WaitChunk(_, count) => count > 0 && s.forward == []
    case _ => false
  }

  function Append(copies: seq<File>, data: string): seq<File>
    requires copies != []
  {
    var last := copies[|copies| - 1];
    copies[|copies| - 1 := last.(data := last.data + data)]
  }

  /** Bytes are written to a file that is open. */
  predicate CopyOpen(s: State) {
    (s.receiver.WaitChunk? ==> s.copies != []) &&
    (s.receiver.AckChunk? ==> s.receiver.count > 0)
  }

  /** The first `len` bytes of a payload, as `write` takes them. */
  function Taken(m: Msg): string {
    if m.len <= |m.payload| then m.payload[..m.len] else m.payload
  }

  /** The receiver's next statement. */
  function ReceiverStep(p: Params, s: State): State
    requires p.max > 0 && !ReceiverBlocked(s) && CopyOpen(s)
  {
    match s.receiver
    case WaitCount => s.(receiver := WaitName(0), filesNumber := s.forward[0].len, forward := s.forward[1..])
    case WaitName(i) =>
      if i < s.filesNumber then s.(receiver := AckName(i, CString(s.forward[0].payload)), forward := s.forward[1..])
      else s.(receiver := ReceiverDone)
    case AckName(i, name) => s.(receiver := WaitSize(i, name), backward := s.backward + [ACK])
    case WaitSize(i, name) => s.(receiver := AckSize(i, name, s.forward[0].len), forward := s.forward[1..])
    case AckSize(i, name, size) =>
      s.(receiver := WaitChunk(i, Chunks(size, p.max)), backward := s.backward + [ACK],
         copies := s.copies + [File("copy_" + name, "")])
    case WaitChunk(i, count) =>
      if count == 0 then s.(receiver := WaitName(i + 1))
      else s.(receiver := AckChunk(i, count), forward := s.forward[1..],
              copies := Append(s.copies, Taken(s.forward[0])))
    case AckChunk(i, count) => s.(receiver := WaitChunk(i, count - 1), backward := s.backward + [ACK])
  }
}

/** The file copy in every run. */
module FileCopyRuns {
  import opened FileCopySpec

  // ---------- Chunk counts ----------

  lemma DivUnique(a: nat, m: nat, q: int, r: int)
    requires m > 0 && a == q * m + r && 0 <= r < m
    ensures a / m == q && a % m == r
  {
    var d := q - a / m;
    assert a == (a / m) * m + a % m;
    assert d * m == a % m - r;
    MultipleBelow(d, m);
  }

  lemma MultipleBelow(d: int, m: int)
    requires m > 0 && -m < d * m < m
    ensures d == 0
  {
  }

  lemma ChunksStep(size: nat, max: nat)
    requires max > 0
    ensures size == 0 ==> Chunks(size, max) == 0
    ensures 0 < size <= max ==> Chunks(size, max) == 1
    ensures size > max ==> Chunks(size, max) == 1 + Chunks(size - max, max)
  {
    if size < max {
      DivUnique(size, max, 0, size);
    } else if size == max {
      DivUnique(size, max, 1, 0);
    } else {
      var q, r := (size - max) / max, (size - max) % max;
      assert size - max == q * max + r;
      assert (q + 1) * max == q * max + max;
      DivUnique(size, max, q + 1, r);
    }
  }

  /** The rounded-up chunk count is the number of reads that return something. */
  lemma ChunksAfterRead(data: string, off: nat, max: nat)
    requires max > 0 && off <= |data|
    ensures var chunk := ReadAt(data, off, max);
            && (chunk == [] <==> off == |data|) && off + |chunk| <= |data|
            && data[..off] + chunk == data[..off + |chunk|]
            && Chunks(|data| - off, max) ==
               (if chunk == [] then 0 else 1 + Chunks(|data| - off - |chunk|, max))
  {
    ChunksStep(|data| - off, max);
    ChunksStep(|data| - off - |ReadAt(data, off, max)|, max);
  }

  lemma {:induction false} CStringOf(name: string)
    requires '\0' !in name
    ensures CString(name + "\0") == name
  {
    if name != [] {
      CStringOf(name[1..]);
      assert (name + "\0")[1..] == name[1..] + "\0";
    }
  }

  // ---------- The invariant ----------

  /** The copies of the first `i` files, complete. */
  function Copies(p: Params, i: nat): seq<File>
    requires i <= |p.files|
  {
    seq(i, k requires 0 <= k < i => File("copy_" + p.files[k].name, p.files[k].data))
  }

  function PartCopy(p: Params, i: nat, off: nat): seq<File>
    requires i < |p.files| && off <= |p.files[i].data|
  {
    Copies(p, i) + [File("copy_" + p.files[i].name, p.files[i].data[..off])]
  }

  lemma WholeCopy(p: Params, i: nat)
    requires i < |p.files|
    ensures PartCopy(p, i, |p.files[i].data|) == Copies(p, i + 1)
  {
    assert p.files[i].data[..|p.files[i].data|] == p.files[i].data;
  }

  /** The receiver has everything of the first `i` files, whether or not it has noticed. */
  ghost predicate AtFile(p: Params, s: State, i: nat)
    requires i <= |p.files|
  {
    && s.copies == Copies(p, i)
    && (s.receiver == WaitName(i)
        || (i > 0 && s.receiver == WaitChunk(i - 1, 0))
        || (i == |p.files| && s.receiver == ReceiverDone))
  }

  /** The same, when the first message may still be on its way. */
  ghost predicate BetweenFiles(p: Params, s: State, i: nat, forward: seq<Msg>)
    requires i <= |p.files|
  {
    && s.backward == []
    && if s.receiver == WaitCount then i == 0 && s.copies == [] && s.forward == [CountMsg(p)] + forward
       else s.filesNumber == |p.files| && AtFile(p, s, i) && s.forward == forward
  }

  /** The receiver waits for the rest of file `i`, having written the first `off` bytes. */
  ghost predicate InFile(p: Params, s: State, i: nat, off: nat)
    requires p.max > 0 && i < |p.files| && off <= |p.files[i].data|
  {
    || (s.receiver == WaitChunk(i, Chunks(|p.files[i].data| - off, p.max)) && s.copies == PartCopy(p, i, off))
    || (off == |p.files[i].data| && AtFile(p, s, i + 1))
  }

  /** Sender and receiver stay in step. */
  ghost predicate InStep(p: Params, s: State)
    requires p.max > 0
  {
    && SenderInRange(p, s.sender)
    && match s.sender
       case SendCount => s == START
       case SendName(i) => BetweenFiles(p, s, i, [])
       case SenderDone => BetweenFiles(p, s, |p.files|, [])
       case NameAck(i) =>
         || BetweenFiles(p, s, i, [NameMsg(p.files[i])])
         || (Exchanging(p, s, i) && s.backward == [] && s.receiver == AckName(i, p.files[i].name))
         || (Exchanging(p, s, i) && s.backward == [ACK] && s.receiver == WaitSize(i, p.files[i].name))
       case SendSize(i) => Exchanging(p, s, i) && s.backward == [] && s.receiver == WaitSize(i, p.files[i].name)
       case SizeAck(i) =>
         && s.filesNumber == |p.files|
         && ((s.forward == [SizeMsg(p.files[i])] && s.backward == [] && s.copies == Copies(p, i) &&
              s.receiver == WaitSize(i, p.files[i].name))
             || (Exchanging(p, s, i) && s.backward == [] &&
                 s.receiver == AckSize(i, p.files[i].name, |p.files[i].data|))
             || (s.forward == [] && s.backward == [ACK] && InFile(p, s, i, 0)))
       case Reading(i, off) => s.filesNumber == |p.files| && s.forward == [] && s.backward == [] && InFile(p, s, i, off)
       case ChunkAck(i, off) => s.filesNumber == |p.files| && ChunkOut(p, s, i, off)
  }

  ghost predicate Exchanging(p: Params, s: State, i: nat)
    requires i < |p.files|
  {
    s.filesNumber == |p.files| && s.forward == [] && s.copies == Copies(p, i)
  }

  /** A chunk ending at `off` is on its way, written, or acknowledged. */
  ghost predicate ChunkOut(p: Params, s: State, i: nat, off: nat)
    requires p.max > 0 && i < |p.files| && off <= |p.files[i].data|
  {
    || (s.backward == [] && |s.forward| == 1 && ChunkSent(p, s, i, off, s.forward[0]))
    || (s.backward == [] && s.forward == [] && s.copies == PartCopy(p, i, off) &&
        s.receiver == AckChunk(i, 1 + Chunks(|p.files[i].data| - off, p.max)))
    || (s.backward == [ACK] && s.forward == [] && InFile(p, s, i, off))
  }

  ghost predicate ChunkSent(p: Params, s: State, i: nat, off: nat, m: Msg)
    requires p.max > 0 && i < |p.files| && off <= |p.files[i].data|
  {
    && 0 < m.len == |m.payload| <= off
    && var start := off - m.len;
    && p.files[i].data[..start] + m.payload == p.files[i].data[..off]
    && s.copies == PartCopy(p, i, start)
    && s.receiver == WaitChunk(i, 1 + Chunks(|p.files[i].data| - off, p.max))
  }

  lemma InStepFacts(p: Params, s: State)
    requires p.max > 0 && InStep(p, s)
    ensures CopyOpen(s) && |s.forward| <= 2 && |s.backward| <= 1
  {
  }

  lemma ReadKeepsStep(p: Params, s: State)
    requires ParamsOk(p) && InStep(p, s) && s.sender.Reading?
    ensures InStep(p, SenderStep(p, s))
  {
    var Reading(i, off) := s.sender;
    var f := p.files[i];
    var chunk := ReadAt(f.data, off, p.max);
    ChunksAfterRead(f.data, off, p.max);
    if chunk == [] {
      WholeCopy(p, i);
    } else {
      var s' := SenderStep(p, s);
      assert ChunkSent(p, s', i, off + |chunk|, s'.forward[0]);
    }
  }

  lemma SenderKeepsStep(p: Params, s: State)
    requires ParamsOk(p) && InStep(p, s) && !SenderBlocked(s)
    ensures InStep(p, SenderStep(p, s))
  {
    if s.sender.Reading? {
      ReadKeepsStep(p, s);
    }
  }

  lemma WaitNameKeepsStep(p: Params, s: State)
    requires ParamsOk(p) && InStep(p, s) && !ReceiverBlocked(s) && s.receiver.WaitName?
    ensures InStep(p, ReceiverStep(p, s))
  {
    var i := s.receiver.i;
    if i < |p.files| {
      assert p.files[i] in p.files;
      CStringOf(p.files[i].name);
    }
  }

  lemma TakeChunkKeepsStep(p: Params, s: State)
    requires ParamsOk(p) && InStep(p, s) && CopyOpen(s) && s.forward != []
    requires s.receiver.WaitChunk? && s.receiver.count > 0
    ensures InStep(p, ReceiverStep(p, s))
  {
    var ChunkAck(i, off) := s.sender;
    var m := s.forward[0];
    assert ChunkSent(p, s, i, off, m);
    assert Taken(m) == m.payload;
    assert Append(s.copies, m.payload) == PartCopy(p, i, off);
  }

  /** The receiver closes a file it has completely. */
  lemma CloseKeepsStep(p: Params, s: State)
    requires ParamsOk(p) && InStep(p, s) && CopyOpen(s) && s.receiver.WaitChunk? && s.receiver.count == 0
    ensures InStep(p, ReceiverStep(p, s))
  {
    var i := s.receiver.i;
    if i < |p.files| && (s.sender.SizeAck? || s.sender.Reading? || s.sender.ChunkAck?) && s.sender.i == i {
      var off := if s.sender.SizeAck? then 0 else s.sender.off;
      ChunksStep(|p.files[i].data| - off, p.max);
      ChunksPositive(|p.files[i].data| - off, p.max);
      WholeCopy(p, i);
    }
  }

  lemma ChunksPositive(size: nat, max: nat)
    requires max > 0
    ensures Chunks(size, max) == 0 <==> size == 0
  {
  }

  lemma WaitChunkKeepsStep(p: Params, s: State)
    requires ParamsOk(p) && InStep(p, s) && !ReceiverBlocked(s) && s.receiver.WaitChunk? && CopyOpen(s)
    ensures InStep(p, ReceiverStep(p, s))
  {
    if s.receiver.count > 0 {
      TakeChunkKeepsStep(p, s);
    } else {
      CloseKeepsStep(p, s);
    }
  }

  lemma ReceiverKeepsStep(p: Params, s: State)
    requires ParamsOk(p) && InStep(p, s) && !ReceiverBlocked(s) && CopyOpen(s)
    ensures InStep(p, ReceiverStep(p, s))
  {
    if s.receiver.WaitName? {
      WaitNameKeepsStep(p, s);
    } else if s.receiver.WaitChunk? {
      WaitChunkKeepsStep(p, s);
    }
  }

  // ---------- Runs ----------

  /** Whose statement comes next. */
  datatype Turn = SenderTurn | ReceiverTurn

  predicate CanTake(s: State, t: Turn) {
    if t.SenderTurn? then !SenderBlocked(s) else !ReceiverBlocked(s)
  }

  function Take(p: Params, s: State, t: Turn): State
    requires p.max > 0 && CanTake(s, t) && SenderInRange(p, s.sender) && CopyOpen(s)
  {
    if t.SenderTurn? then SenderStep(p, s) else ReceiverStep(p, s)
  }

  lemma TurnKeepsStep(p: Params, s: State, t: Turn)
    requires ParamsOk(p) && InStep(p, s) && CopyOpen(s) && CanTake(s, t)
    ensures InStep(p, Take(p, s, t)) && CopyOpen(Take(p, s, t))
  {
    if t.SenderTurn? {
      SenderKeepsStep(p, s);
    } else {
      ReceiverKeepsStep(p, s);
    }
    InStepFacts(p, Take(p, s, t));
  }

  ghost predicate Leads(p: Params, s: State, turns: seq<Turn>, s': State)
    requires ParamsOk(p) && InStep(p, s) && CopyOpen(s)
    decreases |turns|
  {
    if turns == [] then s' == s
    else
      && CanTake(s, turns[0])
      && (TurnKeepsStep(p, s, turns[0]); Leads(p, Take(p, s, turns[0]), turns[1..], s'))
  }

  ghost predicate Reachable(p: Params, s: State)
    requires ParamsOk(p)
  {
    exists turns :: Leads(p, START, turns, s)
  }

  lemma {:induction false} EveryRun(p: Params, s: State, turns: seq<Turn>, s': State)
    requires ParamsOk(p) && InStep(p, s) && CopyOpen(s) && Leads(p, s, turns, s')
    ensures InStep(p, s') && CopyOpen(s')
    decreases |turns|
  {
    if turns != [] {
      TurnKeepsStep(p, s, turns[0]);
      EveryRun(p, Take(p, s, turns[0]), turns[1..], s');
    }
  }

  lemma ReachableInStep(p: Params, s: State)
    requires ParamsOk(p) && Reachable(p, s)
    ensures InStep(p, s) && CopyOpen(s)
  {
    var turns :| Leads(p, START, turns, s);
    EveryRun(p, START, turns, s);
  }

  ghost predicate Finished(s: State) {
    s.sender.SenderDone? && s.receiver.ReceiverDone?
  }

  /** The message is the one the receiver, having written what it has, asks for next. */
  ghost predicate AskedFor(p: Params, s: State, m: Msg) {
    match s.receiver
    case WaitCount => m.len == |p.files|
    case WaitName(i) => i < |p.files| && NamesFile(m, p.files[i])
    case WaitSize(i, _) => i < |p.files| && m.len == |p.files[i].data|
    case WaitChunk(i, count) =>
      if count == 0 then i + 1 < |p.files| && NamesFile(m, p.files[i + 1])
      else i < |p.files| && s.copies != [] && NextChunk(p.files[i].data, s.copies[|s.copies| - 1].data, m)
    case _ => false
  }

  /** The name with its final zero byte. */
  ghost predicate NamesFile(m: Msg, f: File) {
    m.payload == f.name + "\0" && m.len == |m.payload|
  }

  /** A non-empty chunk that takes up the data where the copy stops. */
  ghost predicate NextChunk(data: string, copied: string, m: Msg) {
    copied + m.payload <= data && 0 < m.len == |m.payload|
  }

  lemma InStepAsked(p: Params, s: State)
    requires p.max > 0 && InStep(p, s) && s.forward != []
    ensures AskedFor(p, s, s.forward[0])
  {
    if s.sender.ChunkAck? {
      var off := s.sender.off;
      var m := s.forward[0];
      assert ChunkSent(p, s, s.sender.i, off, m);
      assert p.files[s.sender.i].data[..off - m.len] + m.payload == p.files[s.sender.i].data[..off];
    }
  }

  /**
    In every run at most two messages are under way, two only before the receiver has the
    number of files; the first is the one it asks for next, and no acknowledgement is under
    way together with a message.
   */
  lemma StaysInStep(p: Params, s: State)
    requires ParamsOk(p) && Reachable(p, s)
    ensures |s.forward| <= 2 && |s.backward| <= 1 && (s.forward == [] || s.backward == [])
    ensures |s.forward| == 2 ==> s.receiver == WaitCount && |p.files| > 0 && NamesFile(s.forward[1], p.files[0])
    ensures s.forward != [] ==> AskedFor(p, s, s.forward[0])
    ensures s.backward != [] ==> s.backward == [Msg(4, "ACK\0")]
  {
    ReachableInStep(p, s);
    InStepFacts(p, s);
    if s.forward != [] {
      InStepAsked(p, s);
    }
  }

  /** When both are done, every copy has exactly the bytes of its source. */
  lemma CopiesComplete(p: Params, s: State)
    requires ParamsOk(p) && Reachable(p, s) && Finished(s)
    ensures s.copies ==
            seq(|p.files|, k requires 0 <= k < |p.files| => File("copy_" + p.files[k].name, p.files[k].data))
  {
    ReachableInStep(p, s);
  }

  lemma NoDeadlock(p: Params, s: State)
    requires ParamsOk(p) && InStep(p, s) && !Finished(s)
    ensures CanTake(s, SenderTurn) || CanTake(s, ReceiverTurn)
  {
  }

  /** The statements either side runs for files `i` onwards. */
  function FilesWork(p: Params, i: nat): nat
    requires p.max > 0
    decreases |p.files| - i
  {
    if i >= |p.files| then 1
    else 5 + 2 * Chunks(|p.files[i].data|, p.max) + FilesWork(p, i + 1)
  }

  function SenderWork(p: Params, s: Sender): int
    requires p.max > 0 && SenderInRange(p, s)
  {
    match s
    case SendCount => 1 + FilesWork(p, 0)
    case SendName(i) => FilesWork(p, i)
    case NameAck(i) => FilesWork(p, i) - 1
    case SendSize(i) => FilesWork(p, i) - 2
    case SizeAck(i) => FilesWork(p, i) - 3
    case Reading(i, off) => 2 * Chunks(|p.files[i].data| - off, p.max) + 1 + FilesWork(p, i + 1)
    case ChunkAck(i, off) => 2 * Chunks(|p.files[i].data| - off, p.max) + 2 + FilesWork(p, i + 1)
    case SenderDone => 0
  }

  function ReceiverWork(p: Params, r: Receiver): int
    requires p.max > 0
  {
    match r
    case WaitCount => 1 + FilesWork(p, 0)
    case WaitName(i) => FilesWork(p, i)
    case AckName(i, _) => FilesWork(p, i) - 1
    case WaitSize(i, _) => FilesWork(p, i) - 2
    case AckSize(i, _, size) => 2 * Chunks(size, p.max) + 2 + FilesWork(p, i + 1)
    case WaitChunk(i, count) => 2 * count + 1 + FilesWork(p, i + 1)
    case AckChunk(i, count) => 2 * count + FilesWork(p, i + 1)
    case ReceiverDone => 0
  }

  /** A statement other than a read lowers the sender's work by one. */
  lemma SenderMoves(p: Params, s: State)
    requires p.max > 0 && SenderInRange(p, s.sender) && !SenderBlocked(s) && !s.sender.Reading?
    ensures var s' := SenderStep(p, s);
            SenderInRange(p, s'.sender) && SenderWork(p, s'.sender) == SenderWork(p, s.sender) - 1
  {
  }

  lemma SenderWorks(p: Params, s: State)
    requires ParamsOk(p) && SenderInRange(p, s.sender) && !SenderBlocked(s)
    ensures var s' := SenderStep(p, s);
            SenderInRange(p, s'.sender) && SenderWork(p, s'.sender) == SenderWork(p, s.sender) - 1
  {
    if s.sender.Reading? {
      ChunksAfterRead(p.files[s.sender.i].data, s.sender.off, p.max);
    } else {
      SenderMoves(p, s);
    }
  }

  /** What the receiver knows when it waits for a name, and what it is sent when it waits for a size. */
  lemma WaitingFacts(p: Params, s: State)
    requires p.max > 0 && InStep(p, s)
    ensures s.receiver.WaitName? ==> s.receiver.i <= s.filesNumber == |p.files|
    ensures s.receiver.WaitSize? && s.forward != [] ==>
            s.receiver.i < |p.files| && s.forward[0] == SizeMsg(p.files[s.receiver.i])
  {
  }

  lemma ReceiverMoves(p: Params, s: State)
    requires p.max > 0 && CopyOpen(s) && !ReceiverBlocked(s)
    requires s.receiver.WaitName? ==> s.receiver.i <= s.filesNumber == |p.files|
    requires s.receiver.WaitSize? ==> s.receiver.i < |p.files| && s.forward[0] == SizeMsg(p.files[s.receiver.i])
    ensures ReceiverWork(p, ReceiverStep(p, s).receiver) == ReceiverWork(p, s.receiver) - 1
  {
  }

  lemma ReceiverWorks(p: Params, s: State)
    requires ParamsOk(p) && InStep(p, s) && CopyOpen(s) && !ReceiverBlocked(s)
    ensures ReceiverWork(p, ReceiverStep(p, s).receiver) == ReceiverWork(p, s.receiver) - 1
  {
    WaitingFacts(p, s);
    ReceiverMoves(p, s);
  }

  function Work(p: Params, s: State): int
    requires p.max > 0 && SenderInRange(p, s.sender)
  {
    SenderWork(p, s.sender) + ReceiverWork(p, s.receiver)
  }

  lemma WorkNat(p: Params, s: State)
    requires p.max > 0 && InStep(p, s)
    ensures SenderWork(p, s.sender) >= 0 && ReceiverWork(p, s.receiver) >= 0
  {
  }

  lemma TurnWorks(p: Params, s: State, t: Turn)
    requires ParamsOk(p) && InStep(p, s) && CopyOpen(s) && CanTake(s, t)
    ensures SenderInRange(p, Take(p, s, t).sender) && Work(p, Take(p, s, t)) == Work(p, s) - 1
  {
    if t.SenderTurn? {
      SenderWorks(p, s);
      assert SenderStep(p, s).receiver == s.receiver;
    } else {
      ReceiverWorks(p, s);
      assert ReceiverStep(p, s).sender == s.sender;
    }
  }

  /**
    It takes one statement off the work that remains at each turn, and a run
    that cannot go on has both sides done.
   */
  lemma {:induction false} RunsFinish(p: Params, s: State, turns: seq<Turn>, s': State)
    requires ParamsOk(p) && InStep(p, s) && CopyOpen(s) && Leads(p, s, turns, s')
    ensures SenderInRange(p, s'.sender) && |turns| + Work(p, s') == Work(p, s) && Work(p, s') >= 0
    ensures !CanTake(s', SenderTurn) && !CanTake(s', ReceiverTurn) ==> Finished(s')
    decreases |turns|
  {
    if turns == [] {
      WorkNat(p, s);
      if !Finished(s) {
        NoDeadlock(p, s);
      }
    } else {
      TurnKeepsStep(p, s, turns[0]);
      TurnWorks(p, s, turns[0]);
      RunsFinish(p, Take(p, s, turns[0]), turns[1..], s');
    }
  }

  /**
    Every run ends, with both sides done: either side runs two statements, five more for each
    file and two more for each chunk, so a run takes at most twice as many turns, and one that
    cannot go on has taken exactly these.
   */
  lemma EveryRunFinishes(p: Params, turns: seq<Turn>, s: State)
    requires ParamsOk(p) && Leads(p, START, turns, s)
    ensures |turns| <= 2 * (2 + 5 * |p.files| + 2 * ChunksFrom(p, 0))
    ensures !CanTake(s, SenderTurn) && !CanTake(s, ReceiverTurn) ==>
            Finished(s) && |turns| == 2 * (2 + 5 * |p.files| + 2 * ChunksFrom(p, 0))
  {
    RunsFinish(p, START, turns, s);
    FilesWorkAddsUp(p, 0);
  }

  /** The chunks of files `i` onwards. */
  function ChunksFrom(p: Params, i: nat): nat
    requires p.max > 0
    decreases |p.files| - i
  {
    if i >= |p.files| then 0 else Chunks(|p.files[i].data|, p.max) + ChunksFrom(p, i + 1)
  }

  lemma {:induction false} FilesWorkAddsUp(p: Params, i: nat)
    requires p.max > 0 && i <= |p.files|
    ensures FilesWork(p, i) == 1 + 5 * (|p.files| - i) + 2 * ChunksFrom(p, i)
    decreases |p.files| - i
  {
    if i < |p.files| {
      FilesWorkAddsUp(p, i + 1);
    }
  }
}
