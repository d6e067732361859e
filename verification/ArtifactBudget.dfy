/**
  src/fakedetector/_generated_artifact_budget.py: many writers charging one byte budget for the
  growth of their files. First what one operation does to one file and the budget, as functions
  on values; then every interleaving of operations on any number of files; then the mutable
  objects, whose methods do exactly what the functions say.

  What the operating system decides (a fault, how many bytes really got out, what length a
  failed truncation leaves) is an argument of the operation and may be anything.
 */
module ArtifactBudget {
  import opened Integers

  const BYTES_PER_MEBIBYTE: nat := 1_048_576

  /** A writer's claimed extent beside the physical file it writes. */
  datatype FileState = FileState(extent: nat, length: nat, position: nat, closed: bool)

  /** Ok carries the returned number; the other cases are the exceptions raised to the caller. */
  datatype Status = Ok(result: int) | LimitError | WriteError | ValueError

  datatype Effect = Effect(used: nat, file: FileState, status: Status)

  /** What the system does with a request: it may refuse to tell the position, and may raise or
      stop early after `amount`. */
  datatype Fault = Fault(tellFails: bool, raises: bool, amount: nat)

  // ----- one operation

  predicate ClaimRejected(max: nat, used: nat, additional: int) {
    additional > 0 && additional > max - used
  }

  function Claimed(used: nat, additional: int): nat {
    if additional <= 0 then used else used + additional
  }

  /** What a list of claims adds up to. */
  function Growth(claims: seq<int>): nat {
    if claims == [] then 0 else Claimed(0, claims[0]) + Growth(claims[1..])
  }

  /** The claims are all accepted, one after the other. */
  predicate Granted(max: nat, used: nat, claims: seq<int>)
    decreases claims
  {
    claims == [] || (!ClaimRejected(max, used, claims[0]) && Granted(max, Claimed(used, claims[0]), claims[1..]))
  }

  /** Claims in a row are granted exactly when they fit together. */
  lemma {:induction false} GrantedWhenFitting(max: nat, used: nat, claims: seq<int>)
    requires used <= max
    ensures Granted(max, used, claims) <==> Growth(claims) <= max - used
    decreases claims
  {
    if claims == [] {
    } else if !ClaimRejected(max, used, claims[0]) {
      GrantedWhenFitting(max, Claimed(used, claims[0]), claims[1..]);
    }
  }

  /** However the bytes are split into claims, every one of them will be accepted. */
  ghost predicate Affordable(max: nat, used: nat, bytes: nat) {
    forall claims :: Growth(claims) <= bytes ==> Granted(max, used, claims)
  }

  /** The remaining bytes are exactly what is affordable. */
  lemma AffordableIsRemaining(max: nat, used: nat, bytes: nat)
    requires used <= max
    ensures Affordable(max, used, bytes) <==> bytes <= max - used
  {
    forall claims | Growth(claims) <= bytes <= max - used
      ensures Granted(max, used, claims)
    {
      GrantedWhenFitting(max, used, claims);
    }
    var whole := [bytes as int];
    assert Growth(whole) == bytes by {
      assert Growth(whole[1..]) == 0;
    }
    GrantedWhenFitting(max, used, whole);
  }

  /** The physical outcome of writing `done` bytes at the position. */
  function WrittenFile(file: FileState, done: nat): FileState {
    file.(length := if done == 0 then file.length else Max(file.length, file.position + done),
          position := file.position + done)
  }

  function WriteEffect(max: nat, used: nat, file: FileState, count: nat, fault: Fault): Effect {
    if file.closed then Effect(used, file, ValueError)
    else if fault.tellFails then Effect(used, file, WriteError)
    else
      var target := Max(file.extent, file.position + count);
      if ClaimRejected(max, used, target - file.extent) then Effect(used, file, LimitError)
      else
        var done := Min(fault.amount, count);
        Effect(Claimed(used, target - file.extent),
               WrittenFile(file, done).(extent := target),
               if fault.raises || done != count then WriteError else Ok(count))
  }

  function SeekTarget(file: FileState, offset: int, whence: int): int {
    if whence == 0 then offset else if whence == 1 then file.position + offset else file.length + offset
  }

  function SeekEffect(used: nat, file: FileState, offset: int, whence: int, fault: Fault): Effect {
    var target := SeekTarget(file, offset, whence);
    if file.closed || whence !in {0, 1, 2} then Effect(used, file, ValueError)
    else if fault.raises || target < 0 then Effect(used, file, WriteError)
    else Effect(used, file.(position := target), Ok(target))
  }

  datatype Size = Here | To(size: int)

  function TruncateEffect(max: nat, used: nat, file: FileState, size: Size, fault: Fault): Effect {
    if size.Here? && file.closed then Effect(used, file, ValueError)
    else if size.Here? && fault.tellFails then Effect(used, file, WriteError)
    else
      var target := if size.Here? then file.position else size.size;
      var extent := Max(file.extent, target);
      if target < 0 then Effect(used, file, ValueError)
      else if ClaimRejected(max, used, extent - file.extent) then Effect(used, file, LimitError)
      else
        var charged := Claimed(used, extent - file.extent);
        if file.closed then Effect(charged, file.(extent := extent), ValueError)
        else if fault.raises then
          Effect(charged, file.(extent := extent, length := Min(fault.amount, Max(file.length, target))), WriteError)
        else Effect(charged, file.(extent := extent, length := target), Ok(target))
  }

  function CloseEffect(used: nat, file: FileState, fault: Fault): Effect {
    if file.closed then Effect(used, file, Ok(0))
    else Effect(used, file.(closed := true), if fault.raises then WriteError else Ok(0))
  }

  /** The claimed extent covers the file on disk. */
  predicate Covered(file: FileState) {
    file.length <= file.extent
  }

  /** What every operation keeps, whatever the system does: the charge is the growth of the
      extent, the budget is never overdrawn, the file stays covered, and an operation that was
      refused for its size changed nothing at all. */
  ghost predicate Keeps(max: nat, used: nat, file: FileState, e: Effect) {
    && used <= e.used <= max
    && e.used - used == e.file.extent - file.extent
    && (Covered(file) ==> Covered(e.file))
    && (e.status == LimitError ==> e.used == used && e.file == file)
  }

  lemma OperationsKeep(max: nat, used: nat, file: FileState, count: nat, offset: int, whence: int, size: Size, fault: Fault)
    requires used <= max
    ensures Keeps(max, used, file, WriteEffect(max, used, file, count, fault))
    ensures Keeps(max, used, file, SeekEffect(used, file, offset, whence, fault))
    ensures Keeps(max, used, file, TruncateEffect(max, used, file, size, fault))
    ensures Keeps(max, used, file, CloseEffect(used, file, fault))
  {
    WriteKeeps(max, used, file, count, fault);
    TruncateKeeps(max, used, file, size, fault);
    NoChargeKeeps(max, used, file, SeekEffect(used, file, offset, whence, fault));
    NoChargeKeeps(max, used, file, CloseEffect(used, file, fault));
  }

  lemma WriteKeeps(max: nat, used: nat, file: FileState, count: nat, fault: Fault)
    requires used <= max
    ensures Keeps(max, used, file, WriteEffect(max, used, file, count, fault))
  {
  }

  lemma TruncateKeeps(max: nat, used: nat, file: FileState, size: Size, fault: Fault)
    requires used <= max
    ensures Keeps(max, used, file, TruncateEffect(max, used, file, size, fault))
  {
  }

  /** Whatever charges nothing and leaves extent and length alone. */
  lemma NoChargeKeeps(max: nat, used: nat, file: FileState, e: Effect)
    requires used <= max && e.used == used && e.status != LimitError
    requires e.file.extent == file.extent && e.file.length == file.length
    ensures Keeps(max, used, file, e)
  {
  }

  /** A write of an open, healthy stream is refused exactly when its growth exceeds what remains;
      a write that stays inside the claimed extent never is. */
  lemma WriteRefusal(max: nat, used: nat, file: FileState, count: nat, fault: Fault)
    requires used <= max && !file.closed && !fault.tellFails
    ensures WriteEffect(max, used, file, count, fault).status == LimitError <==>
              file.position + count > file.extent && used + (file.position + count - file.extent) > max
  {
  }

  /** A write returns exactly when it is allowed, affordable and complete. Then it returns its count,
      the position has moved over it, and the file reaches at least there; no write leaves bytes
      beyond its own end, and none passes its count. */
  lemma WriteOutcome(max: nat, used: nat, file: FileState, count: nat, fault: Fault)
    ensures var e := WriteEffect(max, used, file, count, fault);
            var end := file.position + count;
            && (e.status.Ok? <==> !file.closed && !fault.tellFails && !fault.raises && count <= fault.amount
                                  && (end <= file.extent || used + (end - file.extent) <= max))
            && (e.status.Ok? ==>
                  && e.status.result == count && e.file.position == end
                  && (count > 0 ==> e.file.length >= end) && e.file.extent >= end)
            && file.position <= e.file.position <= end
            && (e.file.length == file.length || (file.length < e.file.length == e.file.position))
            && (e.file.extent == file.extent || file.extent < e.file.extent == end)
            && e.file.closed == file.closed
            && (e.status == ValueError <==> file.closed)
  {
  }

  /** Where a seek ends: from the beginning, from the position or from the end of the file. */
  lemma SeekMeans(used: nat, file: FileState, offset: int, whence: int, fault: Fault)
    ensures var e := SeekEffect(used, file, offset, whence, fault);
            && e.used == used && e.file.length == file.length && e.file.extent == file.extent && e.file.closed == file.closed
            && (e.status == ValueError <==> file.closed || whence < 0 || whence > 2)
            && (e.status.Ok? ==> e.status.result == e.file.position)
            && (!e.status.Ok? ==> e.file.position == file.position)
            && (!file.closed && !fault.raises ==>
                  && (whence == 0 ==> if offset >= 0 then e.status == Ok(offset) else e.status == WriteError)
                  && (whence == 1 ==> if file.position + offset >= 0 then e.status == Ok(file.position + offset) else e.status == WriteError)
                  && (whence == 2 ==> if file.length + offset >= 0 then e.status == Ok(file.length + offset) else e.status == WriteError))
            && (fault.raises ==> !e.status.Ok?)
  {
  }

  /** Seeking to the end and writing appends: the file grows by exactly what was written. */
  lemma AppendExtends(max: nat, used: nat, file: FileState, count: nat, seekFault: Fault, fault: Fault)
    requires !file.closed && !seekFault.raises
    ensures var sought := SeekEffect(used, file, 0, 2, seekFault);
            var e := WriteEffect(max, sought.used, sought.file, count, fault);
            e.status.Ok? ==> e.file.length == e.file.position == file.length + count
  {
  }

  /** Seeking back over what was written returns to where the write began. */
  lemma SeekUndoesMove(max: nat, used: nat, file: FileState, count: nat, fault: Fault, seekFault: Fault)
    requires !seekFault.raises
    ensures var e := WriteEffect(max, used, file, count, fault);
            e.status.Ok? ==> SeekEffect(e.used, e.file, 0 - count, 1, seekFault).file == e.file.(position := file.position)
  {
  }

  /** A truncation that returns leaves exactly the length it returns, which is the size asked for or
      the position; the position stays. It returns exactly when it is allowed, affordable and healthy. */
  lemma TruncateOutcome(max: nat, used: nat, file: FileState, size: Size, fault: Fault)
    ensures var e := TruncateEffect(max, used, file, size, fault);
            var asked := if size.Here? then file.position else size.size;
            && (e.status.Ok? <==> !file.closed && !fault.raises && !(size.Here? && fault.tellFails) && asked >= 0
                                  && (asked <= file.extent || used + (asked - file.extent) <= max))
            && (e.status.Ok? ==> e.status.result == asked == e.file.length && e.file.extent >= asked)
            && (e.file.extent == file.extent || file.extent < e.file.extent == asked)
            && (e.status == ValueError ==> e.file.length == file.length)
            && (e.status == ValueError <== asked < 0 && size.To?)
            && e.file.position == file.position && e.file.closed == file.closed
  {
  }

  /** Closing closes whatever happens and raises at most once: closing again does nothing. */
  lemma CloseOnce(used: nat, file: FileState, fault: Fault, again: Fault)
    ensures var e := CloseEffect(used, file, fault);
            && e.file == file.(closed := true) && e.used == used
            && (e.status == Ok(0) <==> file.closed || !fault.raises) && (e.status == Ok(0) || e.status == WriteError)
            && CloseEffect(e.used, e.file, again) == Effect(used, e.file, Ok(0))
  {
  }

  // ----- every interleaving

  datatype State = State(max: nat, used: nat, files: seq<FileState>)

  datatype Action =
    | Open(openFault: Fault)
    | Estimate(bytes: int)
    | WriteTo(w: nat, count: nat, writeFault: Fault)
    | SeekIn(s: nat, offset: int, whence: int, seekFault: Fault)
    | TruncateTo(t: nat, size: Size, truncateFault: Fault)
    | CloseFile(c: nat, closeFault: Fault)

  function Apply(state: State, i: nat, e: Effect): State
    requires i < |state.files|
  {
    state.(used := e.used, files := state.files[i := e.file])
  }

  function Step(state: State, action: Action): State {
    match action
    case Open(fault) =>
      if fault.raises then state else state.(files := state.files + [FileState(0, 0, 0, false)])
    case Estimate(_) => state
    case WriteTo(i, count, fault) =>
      if i < |state.files| then Apply(state, i, WriteEffect(state.max, state.used, state.files[i], count, fault)) else state
    case SeekIn(i, offset, whence, fault) =>
      if i < |state.files| then Apply(state, i, SeekEffect(state.used, state.files[i], offset, whence, fault)) else state
    case TruncateTo(i, size, fault) =>
      if i < |state.files| then Apply(state, i, TruncateEffect(state.max, state.used, state.files[i], size, fault)) else state
    case CloseFile(i, fault) =>
      if i < |state.files| then Apply(state, i, CloseEffect(state.used, state.files[i], fault)) else state
  }

  function Run(state: State, actions: seq<Action>): State {
    if actions == [] then state else Step(Run(state, actions[..|actions| - 1]), actions[|actions| - 1])
  }

  function TotalExtent(files: seq<FileState>): nat {
    if files == [] then 0 else TotalExtent(files[..|files| - 1]) + files[|files| - 1].extent
  }

  function TotalLength(files: seq<FileState>): nat {
    if files == [] then 0 else TotalLength(files[..|files| - 1]) + files[|files| - 1].length
  }

  /** The budget is exactly what the files have claimed, and they have not claimed too much. */
  ghost predicate Accounted(state: State) {
    && state.used == TotalExtent(state.files) && state.used <= state.max
    && forall i :: 0 <= i < |state.files| ==> Covered(state.files[i])
  }

  lemma {:induction false} TotalOfUpdated(files: seq<FileState>, i: nat, file: FileState)
    requires i < |files|
    ensures TotalExtent(files[i := file]) == TotalExtent(files) - files[i].extent + file.extent
  {
    var k := |files| - 1;
    if i == k {
      assert files[i := file][..k] == files[..k];
    } else {
      assert files[i := file][..k] == files[..k][i := file];
      TotalOfUpdated(files[..k], i, file);
    }
  }

  /** What a step keeps of the shared state. */
  ghost predicate Grows(before: State, after: State) {
    && Accounted(after) && before.used <= after.used && after.max == before.max
    && |before.files| <= |after.files|
    && forall i :: 0 <= i < |before.files| ==> before.files[i].extent <= after.files[i].extent
  }

  lemma OpenKeeps(state: State)
    requires Accounted(state)
    ensures Grows(state, state.(files := state.files + [FileState(0, 0, 0, false)]))
  {
    TotalOfAppended(state.files, FileState(0, 0, 0, false));
  }

  lemma TotalOfAppended(files: seq<FileState>, file: FileState)
    ensures TotalExtent(files + [file]) == TotalExtent(files) + file.extent
  {
    assert (files + [file])[..|files|] == files;
  }

  lemma StepKeeps(state: State, action: Action)
    requires Accounted(state)
    ensures Grows(state, Step(state, action))
  {
    match action
    case Open(fault) =>
      OpenKeeps(state);
    case Estimate(_) =>
    case WriteTo(i, count, fault) =>
      if i < |state.files| {
        WriteKeeps(state.max, state.used, state.files[i], count, fault);
        ApplyKeeps(state, i, WriteEffect(state.max, state.used, state.files[i], count, fault));
      }
    case SeekIn(i, offset, whence, fault) =>
      if i < |state.files| {
        NoChargeKeeps(state.max, state.used, state.files[i], SeekEffect(state.used, state.files[i], offset, whence, fault));
        ApplyKeeps(state, i, SeekEffect(state.used, state.files[i], offset, whence, fault));
      }
    case TruncateTo(i, size, fault) =>
      if i < |state.files| {
        TruncateKeeps(state.max, state.used, state.files[i], size, fault);
        ApplyKeeps(state, i, TruncateEffect(state.max, state.used, state.files[i], size, fault));
      }
    case CloseFile(i, fault) =>
      if i < |state.files| {
        NoChargeKeeps(state.max, state.used, state.files[i], CloseEffect(state.used, state.files[i], fault));
        ApplyKeeps(state, i, CloseEffect(state.used, state.files[i], fault));
      }
  }

  lemma ApplyKeeps(state: State, i: nat, e: Effect)
    requires Accounted(state) && i < |state.files| && Keeps(state.max, state.used, state.files[i], e)
    ensures Grows(state, Apply(state, i, e))
  {
    TotalOfUpdated(state.files, i, e.file);
  }

  lemma {:induction false} LengthBelowExtent(files: seq<FileState>)
    requires forall i :: 0 <= i < |files| ==> Covered(files[i])
    ensures TotalLength(files) <= TotalExtent(files)
  {
    if files == [] {
    } else {
      LengthBelowExtent(files[..|files| - 1]);
    }
  }

  /** Safety over whole runs: after any actions on any number of files, the budget equals the sum
      of the claims, covers everything on disk, and has neither shrunk nor passed its maximum. */
  lemma {:induction false} RunsStayWithinBudget(max: nat, actions: seq<Action>)
    ensures var end := Run(State(max, 0, []), actions);
            Accounted(end) && end.max == max && TotalLength(end.files) <= end.used <= max
    ensures forall n :: 0 <= n <= |actions| ==>
              Run(State(max, 0, []), actions[..n]).used <= Run(State(max, 0, []), actions).used
  {
    var start := State(max, 0, []);
    var end := Run(start, actions);
    if actions == [] {
    } else {
      var k := |actions| - 1;
      RunsStayWithinBudget(max, actions[..k]);
      StepKeeps(Run(start, actions[..k]), actions[k]);
      forall n | 0 <= n <= |actions|
        ensures Run(start, actions[..n]).used <= end.used
      {
        if n <= k {
          assert actions[..k][..n] == actions[..n];
        } else {
          assert actions[..n] == actions;
        }
      }
    }
    LengthBelowExtent(end.files);
  }

  // ----- the objects

  class Budget {
    const maxBytes: nat
    var usedBytes: nat

    constructor (mebibytes: nat)
      ensures maxBytes == mebibytes * 1_048_576 && usedBytes == 0
    {
      maxBytes := mebibytes * BYTES_PER_MEBIBYTE;
      usedBytes := 0;
    }

    function RemainingBytes(): int
      reads this
    {
      maxBytes - usedBytes
    }

    /** A preflight estimate is accepted exactly when any claims that add up to it will be, in
        whatever portions they come; it is never charged. */
    method EnsureFeasible(bytes: int) returns (status: Status)
      ensures status == ValueError <==> bytes < 0
      ensures status == LimitError <==> 0 <= bytes && maxBytes < usedBytes + bytes
      ensures bytes >= 0 && usedBytes <= maxBytes ==> (status == Ok(0) <==> Affordable(maxBytes, usedBytes, bytes))
    {
      if bytes >= 0 && usedBytes <= maxBytes {
        AffordableIsRemaining(maxBytes, usedBytes, bytes);
      }
      if bytes < 0 {
        return ValueError;
      }
      if bytes > RemainingBytes() {
        return LimitError;
      }
      status := Ok(0);
    }

    method ClaimExtent(additional: int) returns (status: Status)
      modifies this
      ensures status == LimitError <==> additional > 0 && old(usedBytes) + additional > maxBytes
      ensures status == LimitError || status == Ok(0)
      ensures usedBytes == old(usedBytes) + if status == Ok(0) && additional > 0 then additional else 0
    {
      if additional <= 0 {
        return Ok(0);
      }
      if additional > RemainingBytes() {
        return LimitError;
      }
      usedBytes := usedBytes + additional;
      status := Ok(0);
    }
  }

  /** The stream under a writer, down to its physical length. */
  class Stream {
    var length: nat
    var position: nat
    var closed: bool

    constructor ()
      ensures length == 0 && position == 0 && !closed
    {
      length, position, closed := 0, 0, false;
    }

    method Tell(fault: Fault) returns (status: Status)
      ensures status == if closed then ValueError else if fault.tellFails then WriteError else Ok(position)
    {
      status := if closed then ValueError else if fault.tellFails then WriteError else Ok(position);
    }

    /** Ok(n): n bytes were accepted, which may be fewer than asked for. */
    method Write(count: nat, fault: Fault) returns (status: Status)
      requires !closed
      modifies this
      ensures var done := Min(fault.amount, count);
              && length == (if done == 0 then old(length) else Max(old(length), old(position) + done))
              && position == old(position) + done && !closed
              && status == if fault.raises then WriteError else Ok(done)
    {
      var done := Min(fault.amount, count);
      if done > 0 {
        length := Max(length, position + done);
        position := position + done;
      }
      status := if fault.raises then WriteError else Ok(done);
    }

    method Truncate(target: nat, fault: Fault) returns (status: Status)
      modifies this
      ensures position == old(position) && closed == old(closed)
      ensures length == if closed then old(length)
                        else if fault.raises then Min(fault.amount, Max(old(length), target))
                        else target
      ensures status == if closed then ValueError else if fault.raises then WriteError else Ok(target)
    {
      if closed {
        return ValueError;
      }
      if fault.raises {
        length := Min(fault.amount, Max(length, target));
        return WriteError;
      }
      length := target;
      status := Ok(target);
    }
  }

  class Writer {
    const budget: Budget
    const stream: Stream
    var extent: nat
    var closed: bool

    constructor (stream: Stream, budget: Budget)
      ensures this.stream == stream && this.budget == budget && extent == 0 && !closed
    {
      this.stream := stream;
      this.budget := budget;
      extent, closed := 0, false;
    }

    /** The writer's flag follows its stream, which nobody else closes. */
    ghost predicate Valid()
      reads this, stream
    {
      closed == stream.closed
    }

    function View(): FileState
      reads this, stream
    {
      FileState(extent, stream.length, stream.position, closed)
    }

    method Write(count: nat, fault: Fault) returns (status: Status)
      requires Valid()
      modifies this, stream, budget
      ensures Valid()
      ensures Effect(budget.usedBytes, View(), status)
           == WriteEffect(budget.maxBytes, old(budget.usedBytes), old(View()), count, fault)
    {
      var told := stream.Tell(fault);
      if !told.Ok? {
        return told;
      }
      var target := Max(extent, told.result + count);
      var claim := budget.ClaimExtent(target - extent);
      if !claim.Ok? {
        return claim;
      }
      extent := target;
      var written := stream.Write(count, fault);
      if !written.Ok? || written.result != count {
        return WriteError;
      }
      status := written;
    }

    method Seek(offset: int, whence: int, fault: Fault) returns (status: Status)
      requires Valid()
      modifies stream
      ensures Valid() && budget.usedBytes == old(budget.usedBytes)
      ensures Effect(budget.usedBytes, View(), status)
           == SeekEffect(old(budget.usedBytes), old(View()), offset, whence, fault)
    {
      if stream.closed || whence !in {0, 1, 2} {
        return ValueError;
      }
      var target := SeekTarget(View(), offset, whence);
      if fault.raises || target < 0 {
        return WriteError;
      }
      stream.position := target;
      status := Ok(target);
    }

    method Truncate(size: Size, fault: Fault) returns (status: Status)
      requires Valid()
      modifies this, stream, budget
      ensures Valid()
      ensures Effect(budget.usedBytes, View(), status)
           == TruncateEffect(budget.maxBytes, old(budget.usedBytes), old(View()), size, fault)
    {
      var target;
      if size.Here? {
        var told := stream.Tell(fault);
        if !told.Ok? {
          return told;
        }
        target := told.result;
      } else {
        target := size.size;
      }
      if target < 0 {
        return ValueError;
      }
      var grown := Max(extent, target);
      var claim := budget.ClaimExtent(grown - extent);
      if !claim.Ok? {
        return claim;
      }
      extent := grown;
      status := stream.Truncate(target, fault);
    }

    method Close(fault: Fault) returns (status: Status)
      requires Valid()
      modifies this, stream
      ensures Valid() && budget.usedBytes == old(budget.usedBytes)
      ensures Effect(budget.usedBytes, View(), status)
           == CloseEffect(old(budget.usedBytes), old(View()), fault)
    {
      if closed {
        return Ok(0);
      }
      stream.closed := true;
      closed := true;
      status := if fault.raises then WriteError else Ok(0);
    }
  }

  // ----- many writers, one budget

  /** The writers of one budget: distinct objects on distinct streams, all charging the same budget. */
  ghost predicate Separate(budget: Budget, writers: seq<Writer>) {
    && (forall i :: 0 <= i < |writers| ==> writers[i].budget == budget)
    && (forall i, j :: 0 <= i < j < |writers| ==> writers[i] != writers[j] && writers[i].stream != writers[j].stream)
  }

  ghost function Views(writers: seq<Writer>): (files: seq<FileState>)
    reads set i | 0 <= i < |writers| :: writers[i]
    reads set i | 0 <= i < |writers| :: writers[i].stream
    ensures |files| == |writers|
  {
    seq(|writers|, i requires 0 <= i < |writers|
                     reads set k | 0 <= k < |writers| :: writers[k]
                     reads set k | 0 <= k < |writers| :: writers[k].stream
                   => writers[i].View())
  }

  ghost function Snapshot(budget: Budget, writers: seq<Writer>): State
    reads budget
    reads set i | 0 <= i < |writers| :: writers[i]
    reads set i | 0 <= i < |writers| :: writers[i].stream
  {
    State(budget.maxBytes, budget.usedBytes, Views(writers))
  }

  ghost predicate Ready(budget: Budget, writers: seq<Writer>)
    reads set i | 0 <= i < |writers| :: writers[i]
    reads set i | 0 <= i < |writers| :: writers[i].stream
  {
    Separate(budget, writers) && forall i :: 0 <= i < |writers| ==> writers[i].Valid()
  }

  /** A write through one of many writers is one step of the shared state: the others are where they were. */
  method WriteThrough(budget: Budget, writers: seq<Writer>, i: nat, count: nat, fault: Fault) returns (status: Status)
    requires Ready(budget, writers) && i < |writers|
    modifies budget, writers[i], writers[i].stream
    ensures Snapshot(budget, writers) == Step(old(Snapshot(budget, writers)), WriteTo(i, count, fault))
    ensures Ready(budget, writers)
  {
    status := writers[i].Write(count, fault);
    assert Views(writers) == old(Views(writers))[i := writers[i].View()];
  }

  method SeekThrough(budget: Budget, writers: seq<Writer>, i: nat, offset: int, whence: int, fault: Fault) returns (status: Status)
    requires Ready(budget, writers) && i < |writers|
    modifies writers[i].stream
    ensures Snapshot(budget, writers) == Step(old(Snapshot(budget, writers)), SeekIn(i, offset, whence, fault))
    ensures Ready(budget, writers)
  {
    status := writers[i].Seek(offset, whence, fault);
    assert Views(writers) == old(Views(writers))[i := writers[i].View()];
  }

  method TruncateThrough(budget: Budget, writers: seq<Writer>, i: nat, size: Size, fault: Fault) returns (status: Status)
    requires Ready(budget, writers) && i < |writers|
    modifies budget, writers[i], writers[i].stream
    ensures Snapshot(budget, writers) == Step(old(Snapshot(budget, writers)), TruncateTo(i, size, fault))
    ensures Ready(budget, writers)
  {
    status := writers[i].Truncate(size, fault);
    assert Views(writers) == old(Views(writers))[i := writers[i].View()];
  }

  method CloseThrough(budget: Budget, writers: seq<Writer>, i: nat, fault: Fault) returns (status: Status)
    requires Ready(budget, writers) && i < |writers|
    modifies writers[i], writers[i].stream
    ensures Snapshot(budget, writers) == Step(old(Snapshot(budget, writers)), CloseFile(i, fault))
    ensures Ready(budget, writers)
  {
    status := writers[i].Close(fault);
    assert Views(writers) == old(Views(writers))[i := writers[i].View()];
  }

  /** open_output: an exclusive new file behind a writer of its own, or nothing. */
  method OpenThrough(budget: Budget, writers: seq<Writer>, fault: Fault) returns (status: Status, more: seq<Writer>)
    requires Ready(budget, writers)
    ensures Snapshot(budget, more) == Step(Snapshot(budget, writers), Open(fault))
    ensures fault.raises ==> status == WriteError && more == writers
    ensures !fault.raises ==> status.Ok? && |more| > |writers| && more[|writers|].View() == FileState(0, 0, 0, false)
    ensures Ready(budget, more)
    ensures more == writers || (|more| == |writers| + 1 && more[..|writers|] == writers)
    ensures forall i :: |writers| <= i < |more| ==> fresh(more[i]) && fresh(more[i].stream)
  {
    if fault.raises {
      return WriteError, writers;
    }
    var stream := new Stream();
    var writer := new Writer(stream, budget);
    more := writers + [writer];
    assert Views(more) == Views(writers) + [writer.View()];
    status := Ok(0);
  }

  /** Any run of actions on real objects, from a new budget on. */
  method Execute(mebibytes: nat, actions: seq<Action>) returns (budget: Budget, writers: seq<Writer>)
    ensures Ready(budget, writers)
    ensures Snapshot(budget, writers) == Run(State(mebibytes * 1_048_576, 0, []), actions)
  {
    budget := new Budget(mebibytes);
    writers := [];
    ghost var start := State(mebibytes * BYTES_PER_MEBIBYTE, 0, []);
    for n := 0 to |actions|
      invariant fresh(budget) && Ready(budget, writers)
      invariant forall i :: 0 <= i < |writers| ==> fresh(writers[i]) && fresh(writers[i].stream)
      invariant Snapshot(budget, writers) == Run(start, actions[..n])
    {
      assert actions[..n + 1][..n] == actions[..n];
      writers := Perform(budget, writers, actions[n]);
    }
    assert actions[..|actions|] == actions;
  }

  /** One action; an index of no writer does nothing. */
  method Perform(budget: Budget, writers: seq<Writer>, action: Action) returns (more: seq<Writer>)
    requires Ready(budget, writers)
    modifies budget, writers, set i | 0 <= i < |writers| :: writers[i].stream
    ensures Snapshot(budget, more) == Step(old(Snapshot(budget, writers)), action)
    ensures Ready(budget, more)
    ensures more == writers || (|more| == |writers| + 1 && more[..|writers|] == writers)
    ensures forall i :: |writers| <= i < |more| ==> fresh(more[i]) && fresh(more[i].stream)
  {
    more := writers;
    var status: Status;
    match action
    case Open(fault) => status, more := OpenThrough(budget, writers, fault);
    case Estimate(bytes) => status := budget.EnsureFeasible(bytes);
    case WriteTo(i, count, fault) =>
      if i < |writers| {
        status := WriteThrough(budget, writers, i, count, fault);
      }
    case SeekIn(i, offset, whence, fault) =>
      if i < |writers| {
        status := SeekThrough(budget, writers, i, offset, whence, fault);
      }
    case TruncateTo(i, size, fault) =>
      if i < |writers| {
        status := TruncateThrough(budget, writers, i, size, fault);
      }
    case CloseFile(i, fault) =>
      if i < |writers| {
        status := CloseThrough(budget, writers, i, fault);
      }
  }
}
