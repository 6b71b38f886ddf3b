/**
 Every run of the sync engines: a fetcher, a processor and a result handler interleave over one
 storage and a node that may change at any moment; blocks are fetched ahead and go stale, attempts
 fail, two reorg walks can be under way at once, the process restarts, and it can be killed inside
 a rollback. The block behind each hash record is remembered beside the storage.
 */
module EngineRuns {
  import opened Basics
  import opened Versions
  import opened SyncStorage
  import opened Reorg
  import opened ReorgWalk
  import opened Heal
  import opened SyncEngine
  import Indexing

  datatype Item = Item(height: nat, block: NodeBlock)

  /** `snapshot` selects the engine that guards against stale blocks and moves the cursor at the commit. */
  datatype Config = Config(policy: Policy, maxDepth: nat, indexer: Indexing.Indexer, snapshot: bool)

  /** Idle, checking for a reorganisation, or about to fetch at a height; Down while there is no process. */
  datatype Fetcher = Idle | Looking(walker: Walker) | Ready(current: nat) | Down

  /** Between blocks, attempting one, or past the commit of one. */
  datatype Processor = Free | Trying(item: Item) | Stored(height: nat)

  datatype Handler = Waiting | Handling(walker: Walker)

  datatype Failure = Disconnected | OutOfOrder | GaveUp

  /** The outcome of one block call. */
  datatype Report = Success(height: nat) | Failed(height: nat, why: Failure)

  datatype Task = ByFetcher | ByHandler

  /** A version that a killed rollback has removed. */
  datatype Lost = Lost(key: Key, height: nat)

  /**
   `blocks[h]` is the block whose commit wrote the hash record at h, and `lost` is what the rollbacks
   killed since the last start have removed. Both are remembered for the theorems only.
   */
  datatype State = State(
    st: Storage,
    node: Node,
    cursor: nat,
    fetcher: Fetcher,
    waiting: set<Item>,
    processor: Processor,
    reports: set<Report>,
    handler: Handler,
    blocks: map<nat, NodeBlock>,
    lost: set<Lost>)

  datatype Step =
    | NodeChanges(node: Node)
    | SkipCheck
    | StartCheck
    | Fetch(floor: Option<nat>)
    | Prefetch(height: nat)
    | Validate(item: Item)
    | AttemptFails
    | AttemptCommits
    | SkipStale
    | GiveUp
    | ReportStored
    | TakeReport(report: Report)
    | WalkReads(task: Task)
    | WalkHears(task: Task)
    | WalkCuts(task: Task, refreshed: bool)
    | WalkEnds(task: Task)
    | WalkKilled(task: Task, kill: Kill)
    | Restart
    | HealKilled(kill: Kill)
    | HealKilledLate

  function Start(node: Node): State {
    State(EMPTY_STORAGE, node, 0, Idle, {}, Free, {}, Waiting, map[], {})
  }

  function Writes(cfg: Config, vs: Versions, item: Item): seq<Write> {
    Indexing.WritesOf(cfg.indexer, vs, item.height, Indexing.Block([], item.block.data))
  }

  function Fetched(s: State, height: nat): State {
    if s.node.connected && height in s.node.blocks
    then s.(waiting := s.waiting + {Item(height, s.node.blocks[height])}) else s
  }

  function WalkerOf(s: State, task: Task): Walker {
    match task
    case ByFetcher => if s.fetcher.Looking? then s.fetcher.walker else Rest
    case ByHandler => if s.handler.Handling? then s.handler.walker else Rest
  }

  /** A walk that has come to rest leaves its task idle. */
  function WithWalker(s: State, task: Task, w: Walker): State {
    match task
    case ByFetcher => s.(fetcher := if w.Rest? then Idle else Looking(w))
    case ByHandler => s.(handler := if w.Rest? then Waiting else Handling(w))
  }

  /** The blocks behind the hash records that are left. */
  function Remember(blocks: map<nat, NodeBlock>, st: Storage): map<nat, NodeBlock> {
    map h | h in blocks && h in st.hashes :: blocks[h]
  }

  /** One step; a step that cannot happen changes nothing. */
  function Next(cfg: Config, s: State, step: Step): State {
    match step
    case NodeChanges(node) => s.(node := node)
    case SkipCheck => if s.fetcher.Idle? then s.(fetcher := Ready(s.cursor)) else s
    case StartCheck => if s.fetcher.Idle? then s.(fetcher := Looking(Begin(s.cursor))) else s
    case Fetch(floor) =>
      if s.fetcher.Ready? then Fetched(s, FetchHeight(s.fetcher.current, floor)).(fetcher := Idle) else s
    case Prefetch(height) => if s.fetcher.Idle? then Fetched(s, height) else s
    case Validate(item) =>
      if item !in s.waiting || !s.processor.Free? then s
      else if Accepts(cfg.policy, s.st, item.height, item.block)
      then s.(waiting := s.waiting - {item}, processor := Trying(item))
      else s.(waiting := s.waiting - {item}, reports := s.reports + {Failed(item.height, Disconnected)})
    case AttemptFails => s
    case AttemptCommits =>
      if !s.processor.Trying? then s
      else if InOrder(s.st, s.processor.item.height) then CommitTried(cfg, s)
      else s.(processor := Free, reports := s.reports + {Failed(s.processor.item.height, OutOfOrder)})
    case SkipStale =>
      if cfg.snapshot && s.processor.Trying? && s.processor.item.height < s.cursor
      then s.(processor := Free, reports := s.reports + {Success(s.processor.item.height)}) else s
    case GiveUp =>
      if s.processor.Trying?
      then s.(processor := Free, reports := s.reports + {Failed(s.processor.item.height, GaveUp)}) else s
    case ReportStored =>
      if s.processor.Stored?
      then s.(processor := Free, reports := s.reports + {Success(s.processor.height)},
              cursor := if cfg.snapshot then s.processor.height + 1 else s.cursor) else s
    case TakeReport(report) =>
      if report !in s.reports || !s.handler.Waiting? then s
      else Taken(cfg, s.(reports := s.reports - {report}), report)
    case WalkReads(task) =>
      var w := WalkerOf(s, task);
      if w.Reading? then WithWalker(s, task, ReadLocal(w, s.st, cfg.maxDepth)) else s
    case WalkHears(task) =>
      var w := WalkerOf(s, task);
      if w.Asking? then WithWalker(s, task, HearRemote(w, RemoteHash(s.node, w.check))) else s
    case WalkCuts(task, refreshed) =>
      var w := WalkerOf(s, task);
      if w.Cutting? then Cut(WithWalker(s, task, AfterCut(w, refreshed)), w.height) else s
    case WalkEnds(task) =>
      var w := WalkerOf(s, task);
      if w.Done? then Ended(cfg, s, task, w.next) else s
    case WalkKilled(task, kill) =>
      var w := WalkerOf(s, task);
      if w.Cutting? then Killed(s, w.height, kill) else s
    case Restart =>
      var st := Healed(s.st, s.node, cfg.maxDepth);
      if st.Err? then s
      else State(st.value, s.node, ResumeFrom(st.value.tip, 0), Idle, {}, Free, {}, Waiting,
                 Remember(s.blocks, st.value), {})
    case HealKilled(kill) => Killed(s, SafeHeight(s.st, s.node, cfg.maxDepth), kill)
    case HealKilledLate => Gone(s, RollbackTo(s.st, SafeHeight(s.st, s.node, cfg.maxDepth)), s.lost)
  }

  function Cut(s: State, height: nat): State {
    var st := RollbackTo(s.st, height);
    s.(st := st, blocks := Remember(s.blocks, st))
  }

  /** No process: storage, node and cursor are all there is. */
  function Gone(s: State, st: Storage, lost: set<Lost>): State {
    State(st, s.node, s.cursor, Down, {}, Free, {}, Waiting, Remember(s.blocks, st), lost)
  }

  /** The process is killed inside a rollback to `target`, or inside the heal's own. */
  function Killed(s: State, target: nat, kill: Kill): State {
    Gone(s, Interrupted(s.st, target, kill), s.lost + Losses(s.st, target, kill))
  }

  /** The versions a killed rollback removes. */
  function Losses(st: Storage, target: nat, kill: Kill): set<Lost> {
    set k, i | k in KeysTrimmed(st, target, kill) && k in st.versions && 0 <= i < |st.versions[k]| &&
               st.versions[k][i].height > target :: Lost(k, st.versions[k][i].height)
  }

  /**
   The fetcher stores the height it resumes from and fetches there; the handler stores it unless it
   leaves that to the fetcher.
   */
  function Ended(cfg: Config, s: State, task: Task, next: nat): State {
    match task
    case ByFetcher => s.(cursor := next, fetcher := Ready(next))
    case ByHandler => s.(cursor := if cfg.snapshot then s.cursor else next, handler := Waiting)
  }

  /** A success moves the cursor unless the commit did; a broken link starts a walk; other errors wait. */
  function Taken(cfg: Config, s: State, report: Report): State {
    match report
    case Success(height) => if cfg.snapshot then s else s.(cursor := height + 1)
    case Failed(height, why) => if WalksFor(cfg, why) then s.(handler := Handling(Begin(height))) else s
  }

  /** The snapshot engine's handler does not walk back for an out-of-order commit. */
  predicate WalksFor(cfg: Config, why: Failure) {
    why.Disconnected? || (why.OutOfOrder? && !cfg.snapshot)
  }

  function CommitTried(cfg: Config, s: State): State
    requires s.processor.Trying?
  {
    var item := s.processor.item;
    s.(st := Commit(s.st, item.height, item.block.claimed, Writes(cfg, s.st.versions, item)),
       processor := Stored(item.height),
       blocks := s.blocks[item.height := item.block])
  }

  function Run(cfg: Config, s: State, steps: seq<Step>): State {
    if steps == [] then s
    else Next(cfg, Run(cfg, s, steps[..|steps| - 1]), steps[|steps| - 1])
  }

  /** The state a run has reached before its step `i`. */
  function At(cfg: Config, s: State, steps: seq<Step>, i: nat): State
    requires i <= |steps|
  {
    Run(cfg, s, steps[..i])
  }

  lemma {:induction false} AtNext(cfg: Config, s: State, steps: seq<Step>, i: nat)
    requires i < |steps|
    ensures At(cfg, s, steps, i + 1) == Next(cfg, At(cfg, s, steps, i), steps[i])
  {
    assert steps[..i + 1][..i] == steps[..i];
  }
}
