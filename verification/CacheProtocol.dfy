/** Concurrent readers of the file cache (src/fuse_ops.c), one statement at a time:
    every interleaving gives every reader the uncached reply. */
module CacheProtocol {
  import opened Ods
  import opened Cache
  import opened Filesets

  type Files = uint32 -> Result<seq<byte>>

  function FileAt(files: Files, tag: uint32): Result<seq<byte>> { files(tag) }

  datatype Request = Request(tag: uint32, off: int, n: nat)

  /** The cached buffer; freed storage must not be touched. */
  datatype Buffer = Null | Live(data: seq<byte>) | Freed

  /** Where a reader is; all but Idle, Waiting, Done and Crashed hold the lock. */
  datatype Reader =
    | Idle
    | Waiting(req: Request)
    | Checking(req: Request)
    | Loaded(req: Request, data: seq<byte>)
    | FreedOld(req: Request, data: seq<byte>)
    | StoredBuf(req: Request, data: seq<byte>)
    | StoredSize(req: Request)
    | Copying(req: Request)
    | Done(req: Request, reply: Reply)
    | Crashed

  predicate Holding(r: Reader) {
    r.Checking? || r.Loaded? || r.FreedOld? || r.StoredBuf? || r.StoredSize? || r.Copying?
  }

  datatype State = State(locked: bool, tagNum: uint32, buf: Buffer, size: nat, readers: seq<Reader>)

  function Moved(s: State, i: nat, r: Reader): State
    requires i < |s.readers|
  {
    s.(readers := s.readers[i := r])
  }

  /** One statement of reader i; an idle or finished one takes up `next`. */
  function Step(files: Files, s: State, i: nat, next: Request): State
    requires i < |s.readers|
  {
    match s.readers[i]
    case Idle => Moved(s, i, Begin(next))
    case Done(_, _) => Moved(s, i, Begin(next))
    case Waiting(req) => if s.locked then s else Moved(s.(locked := true), i, Checking(req))
    case Checking(req) =>
      if s.tagNum == req.tag && s.buf != Null then Moved(s, i, Copying(req))
      else
        (match FileAt(files, req.tag)
         case Err(e) => Moved(s.(locked := false), i, Done(req, Failed(e)))
         case Ok(data) => Moved(s, i, Loaded(req, data)))
    case Loaded(req, data) => Moved(s.(buf := if s.buf.Live? then Freed else s.buf), i, FreedOld(req, data))
    case FreedOld(req, data) => Moved(s.(buf := Live(data)), i, StoredBuf(req, data))
    case StoredBuf(req, data) => Moved(s.(size := |data|), i, StoredSize(req))
    case StoredSize(req) => Moved(s.(tagNum := req.tag), i, Copying(req))
    case Copying(req) => Moved(s.(locked := false), i, CopyOut(s, req))
    case Crashed => s
  }

  function Begin(req: Request): Reader {
    if req.off < 0 then Done(req, Failed(EINVAL)) else Waiting(req)
  }

  /** memcpy of the range within the recorded size; a crash if the buffer is not
      live or too short. */
  function CopyOut(s: State, req: Request): Reader {
    if req.off < 0 then Crashed
    else if req.off >= s.size then Done(req, Got([], 0))
    else
      var len := Min(req.n, s.size - req.off);
      if s.buf.Live? && req.off + len <= |s.buf.data|
      then Done(req, Got(s.buf.data[req.off..req.off + len], ToInt(len)))
      else Crashed
  }

  function Init(readers: nat): State {
    State(false, 0, Null, 0, seq(readers, _ => Idle))
  }

  /** A schedule: which reader moves, and what it would ask for next. */
  datatype Move = Move(reader: nat, next: Request)

  function Run(files: Files, s: State, moves: seq<Move>): State
    decreases |moves|
  {
    if moves == [] then s
    else
      var m := moves[|moves| - 1];
      var s' := Run(files, s, moves[..|moves| - 1]);
      if m.reader < |s'.readers| then Step(files, s', m.reader, m.next) else s'
  }

  // ---- the invariant ----

  /** The cache tells the truth. */
  predicate Coherent(files: Files, s: State) {
    && (s.tagNum == 0 <==> s.buf == Null)
    && s.buf != Freed
    && (s.buf.Live? ==> FileAt(files, s.tagNum) == Ok(s.buf.data) && s.size == |s.buf.data|)
    && (s.buf == Null ==> s.size == 0)
  }

  /** What the cache looks like while reader r is where it is. */
  predicate CacheDuring(files: Files, s: State, r: Reader) {
    match r
    case Checking(req) => req.off >= 0 && Coherent(files, s)
    case Loaded(req, data) => req.off >= 0 && Coherent(files, s) && FileAt(files, req.tag) == Ok(data)
    case FreedOld(req, data) => req.off >= 0 && !s.buf.Live? && FileAt(files, req.tag) == Ok(data)
    case StoredBuf(req, data) => req.off >= 0 && s.buf == Live(data) && FileAt(files, req.tag) == Ok(data)
    case StoredSize(req) =>
      req.off >= 0 && s.buf.Live? && s.size == |s.buf.data| && FileAt(files, req.tag) == Ok(s.buf.data)
    case Copying(req) => req.off >= 0 && Coherent(files, s) && s.buf.Live? && s.tagNum == req.tag
    case _ => true
  }

  /** A finished read has the uncached reply, and no read touches bad storage. */
  predicate Truthful(files: Files, r: Reader) {
    !r.Crashed? && (r.Done? ==> r.reply == ReplyTo(FileAt(files, r.req.tag), r.req.off, r.req.n))
  }

  predicate ReaderOk(files: Files, s: State, i: nat)
    requires i < |s.readers|
  {
    var r := s.readers[i];
    && (Holding(r) ==> s.locked && CacheDuring(files, s, r))
    && (r.Waiting? ==> r.req.off >= 0)
    && Truthful(files, r)
  }

  predicate Exclusive(s: State) {
    && (forall i, j :: 0 <= i < j < |s.readers| ==> !(Holding(s.readers[i]) && Holding(s.readers[j])))
    && (s.locked ==> exists i :: 0 <= i < |s.readers| && Holding(s.readers[i]))
  }

  predicate Inv(files: Files, s: State) {
    && Exclusive(s)
    && (!s.locked ==> Coherent(files, s))
    && (forall i :: 0 <= i < |s.readers| ==> ReaderOk(files, s, i))
  }

  // ---- every step keeps it ----

  lemma {:induction false} InitInv(files: Files, readers: nat)
    ensures Inv(files, Init(readers))
  {
  }

  /** A step keeps the moving reader in order. */
  lemma {:induction false} MoverOk(files: Files, s: State, i: nat, next: Request)
    requires FileAt(files, 0).Err? && i < |s.readers| && Inv(files, s)
    ensures ReaderOk(files, Step(files, s, i, next), i)
    ensures !Step(files, s, i, next).locked ==> Coherent(files, Step(files, s, i, next))
  {
    assert ReaderOk(files, s, i);
  }

  /** A step leaves the other readers in order. */
  lemma {:induction false} OthersOk(files: Files, s: State, i: nat, next: Request, k: nat)
    requires i < |s.readers| && Inv(files, s) && k < |s.readers| && k != i
    ensures ReaderOk(files, Step(files, s, i, next), k)
  {
    assert ReaderOk(files, s, i) && ReaderOk(files, s, k);
  }

  lemma {:induction false} StaysExclusive(files: Files, s: State, i: nat, next: Request)
    requires i < |s.readers| && Inv(files, s)
    ensures Exclusive(Step(files, s, i, next))
  {
    var s' := Step(files, s, i, next);
    assert ReaderOk(files, s, i);
    if s'.locked {
      if Holding(s'.readers[i]) {
      } else {
        var h :| 0 <= h < |s.readers| && Holding(s.readers[h]);
        assert Holding(s'.readers[h]);
      }
    }
    forall a, b | 0 <= a < b < |s'.readers| ensures !(Holding(s'.readers[a]) && Holding(s'.readers[b])) {
      assert ReaderOk(files, s, a) && ReaderOk(files, s, b);
    }
  }

  lemma {:induction false} StepKeepsInv(files: Files, s: State, i: nat, next: Request)
    requires FileAt(files, 0).Err? && i < |s.readers| && Inv(files, s)
    ensures Inv(files, Step(files, s, i, next))
  {
    var s' := Step(files, s, i, next);
    MoverOk(files, s, i, next);
    StaysExclusive(files, s, i, next);
    forall k | 0 <= k < |s'.readers| ensures ReaderOk(files, s', k) {
      if k != i {
        OthersOk(files, s, i, next, k);
      }
    }
  }

  // ---- main results ----

  lemma {:induction false} RunKeepsInv(files: Files, readers: nat, moves: seq<Move>)
    requires FileAt(files, 0).Err?
    ensures Inv(files, Run(files, Init(readers), moves))
    decreases |moves|
  {
    if moves == [] {
      InitInv(files, readers);
    } else {
      var m := moves[|moves| - 1];
      var s := Run(files, Init(readers), moves[..|moves| - 1]);
      RunKeepsInv(files, readers, moves[..|moves| - 1]);
      if m.reader < |s.readers| {
        StepKeepsInv(files, s, m.reader, m.next);
      }
    }
  }

  /** Over any run of any number of readers: every finished read got exactly the reply
      of an uncached read, no freed or short buffer was read, and whenever the lock is
      free the tag is 0 exactly if there is no buffer, which otherwise is that file. */
  lemma {:induction false} EveryReplyIsUncached(files: Files, readers: nat, moves: seq<Move>, s: State)
    requires FileAt(files, 0).Err? && s == Run(files, Init(readers), moves)
    ensures forall i :: 0 <= i < |s.readers| ==> Truthful(files, s.readers[i])
    ensures !s.locked ==> Coherent(files, s)
  {
    RunKeepsInv(files, readers, moves);
    forall i | 0 <= i < |s.readers| ensures Truthful(files, s.readers[i]) {
      assert ReaderOk(files, s, i);
    }
  }

  /** The files of a mount, as its readers would see them without a cache. */
  function FilesOf(disk: Disk, fs: Fileset, clone: Option<uint32>): Files {
    (tag: uint32) => ContentsOf(disk, fs, clone, tag)
  }

  /** For the files of any mount, clone or not, nothing needs to be assumed. */
  lemma {:induction false} MountRepliesAreUncached(disk: Disk, fs: Fileset, clone: Option<uint32>, readers: nat,
                                                   moves: seq<Move>, s: State, i: nat)
    requires s == Run(FilesOf(disk, fs, clone), Init(readers), moves)
    requires i < |s.readers| && s.readers[i].Done?
    ensures var r := s.readers[i];
            r.reply == ReplyTo(ContentsOf(disk, fs, clone, r.req.tag), r.req.off, r.req.n)
  {
    TagZeroFails(disk, fs, clone);
    EveryReplyIsUncached(FilesOf(disk, fs, clone), readers, moves, s);
    assert Truthful(FilesOf(disk, fs, clone), s.readers[i]);
  }

  /** How many more of its own statements the lock's holder needs at most. */
  function StepsLeft(r: Reader): nat {
    match r
    case Checking(_) => 6
    case Loaded(_, _) => 5
    case FreedOld(_, _) => 4
    case StoredBuf(_, _) => 3
    case StoredSize(_) => 2
    case Copying(_) => 1
    case _ => 0
  }

  /** The holder is never blocked: each of its statements brings it closer to giving
      up the lock with a reply. */
  lemma {:induction false} HolderProgresses(files: Files, s: State, i: nat, next: Request)
    requires i < |s.readers| && Inv(files, s) && Holding(s.readers[i])
    ensures var s' := Step(files, s, i, next);
            || (Holding(s'.readers[i]) && StepsLeft(s'.readers[i]) < StepsLeft(s.readers[i]))
            || (!s'.locked && s'.readers[i].Done?)
  {
    assert ReaderOk(files, s, i);
  }

  // ---- a reader on its own ----

  function NowOf(s: State): Held {
    if s.buf.Live? then Holds(s.tagNum, s.buf.data) else Nothing
  }

  /** What the cache will hold once reader r, who has the lock, is done. */
  function Pending(files: Files, s: State, r: Reader): Held {
    match r
    case Checking(req) => After(NowOf(s), req.tag, FileAt(files, req.tag), req.off)
    case Loaded(req, data) => Holds(req.tag, data)
    case FreedOld(req, data) => Holds(req.tag, data)
    case StoredBuf(req, data) => Holds(req.tag, data)
    case StoredSize(req) => if s.buf.Live? then Holds(req.tag, s.buf.data) else Nothing
    case _ => NowOf(s)
  }

  /** k statements of reader i alone. */
  function Solo(files: Files, s: State, i: nat, next: Request, k: nat): (s': State)
    requires i < |s.readers|
    ensures |s'.readers| == |s.readers|
    decreases k
  {
    if k == 0 then s else Solo(files, Step(files, s, i, next), i, next, k - 1)
  }

  lemma {:induction false} PendingKept(files: Files, s: State, i: nat, next: Request)
    requires i < |s.readers| && Inv(files, s) && Holding(s.readers[i])
    ensures var s' := Step(files, s, i, next);
            && Pending(files, s', s'.readers[i]) == Pending(files, s, s.readers[i])
            && (s'.readers[i].Done? ==> s'.readers[i].req == s.readers[i].req)
            && (Holding(s'.readers[i]) ==> s'.readers[i].req == s.readers[i].req)
  {
    assert ReaderOk(files, s, i);
  }

  /** The holder's own statements take it to its reply, and the cache to what is pending. */
  lemma {:induction false} HolderFinishes(files: Files, s: State, i: nat, next: Request) returns (k: nat)
    requires FileAt(files, 0).Err? && i < |s.readers| && Inv(files, s) && Holding(s.readers[i])
    ensures var s' := Solo(files, s, i, next, k);
            && Inv(files, s') && !s'.locked && s'.readers[i].Done? && s'.readers[i].req == s.readers[i].req
            && NowOf(s') == Pending(files, s, s.readers[i])
    ensures k <= StepsLeft(s.readers[i])
    decreases StepsLeft(s.readers[i])
  {
    var s1 := Step(files, s, i, next);
    StepKeepsInv(files, s, i, next);
    HolderProgresses(files, s, i, next);
    PendingKept(files, s, i, next);
    if s1.readers[i].Done? {
      k := 1;
    } else {
      k := HolderFinishes(files, s1, i, next);
      k := k + 1;
    }
  }

  /** Alone, a waiting reader does what the cache object does in one call: the same reply,
      and the same file held afterwards. */
  lemma {:induction false} LoneReadIsRead(files: Files, s: State, i: nat, next: Request) returns (k: nat)
    requires FileAt(files, 0).Err? && i < |s.readers| && Inv(files, s) && !s.locked && s.readers[i].Waiting?
    ensures var req, s' := s.readers[i].req, Solo(files, s, i, next, k);
            && !s'.locked && s'.readers[i] == Done(req, ReplyTo(FileAt(files, req.tag), req.off, req.n))
            && NowOf(s') == After(NowOf(s), req.tag, FileAt(files, req.tag), req.off)
  {
    var s1 := Step(files, s, i, next);
    StepKeepsInv(files, s, i, next);
    k := HolderFinishes(files, s1, i, next);
    assert ReaderOk(files, Solo(files, s1, i, next, k), i);
    k := k + 1;
  }

  /** A failed fill gives up the lock and changes no field of the cache. */
  lemma {:induction false} FailedFillChangesNothing(files: Files, s: State, i: nat, next: Request)
    requires i < |s.readers| && Inv(files, s) && s.readers[i].Checking?
    requires FileAt(files, s.readers[i].req.tag).Err?
    ensures var s' := Step(files, s, i, next);
            && s'.tagNum == s.tagNum && s'.buf == s.buf && s'.size == s.size && !s'.locked
            && s'.readers[i] == Done(s.readers[i].req, Failed(FileAt(files, s.readers[i].req.tag).errno))
  {
    assert ReaderOk(files, s, i);
  }
}
