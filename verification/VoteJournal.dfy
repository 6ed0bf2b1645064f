/** The on-disk vote journal and its in-memory FIFO cache (src/node/vote_journal.rs). */
module VoteJournal {
  import opened Chain

  const MAX_RECENT_ENTRIES: nat := 512
  const MALICIOUS_VOTE_SLASH_SCOPE: nat := 256
  const UPPER_LIMIT_OF_VOTE_BLOCK_NUMBER: nat := 11

  // ----- the FIFO cache -----

  datatype LruState = LruState(order: seq<nat>, entries: map<nat, VoteData>)

  const EMPTY_LRU := LruState([], map[])

  function Added(l: LruState, capacity: nat, key: nat, value: VoteData): LruState {
    if key in l.entries then
      l.(entries := l.entries[key := value])
    else
      var pushed := l.order + [key];
      if |pushed| > capacity then
        LruState(pushed[1..], (l.entries - {pushed[0]})[key := value])
      else
        LruState(pushed, l.entries[key := value])
  }

  class VoteDataLru {
    const capacity: nat
    var order: seq<nat>
    var entries: map<nat, VoteData>

    constructor (capacity: nat)
      ensures this.capacity == capacity && State() == EMPTY_LRU
    {
      this.capacity := capacity;
      order := [];
      entries := map[];
    }

    ghost function State(): LruState
      reads this
    {
      LruState(order, entries)
    }

    method Add(key: nat, value: VoteData)
      modifies this
      ensures State() == Added(old(State()), capacity, key, value)
    {
      if key !in entries {
        order := order + [key];
        if |order| > capacity {
          var oldest := order[0];
          order := order[1..];
          entries := entries - {oldest};
        }
      }
      entries := entries[key := value];
    }

    method Contains(key: nat) returns (found: bool)
      ensures found <==> key in State().entries
    {
      found := key in entries;
    }

    method Get(key: nat) returns (value: Option<VoteData>)
      ensures value == if key in State().entries then Some(State().entries[key]) else None
    {
      if key in entries {
        value := Some(entries[key]);
      } else {
        value := None;
      }
    }
  }

  // ----- the slashing rules -----

  /** First height of the backward window of a vote from `source` to `target`. */
  function BackwardStart(source: nat, target: nat): nat {
    if source + 1 + MALICIOUS_VOTE_SLASH_SCOPE < target then
      target - MALICIOUS_VOTE_SLASH_SCOPE
    else
      source + 1
  }

  /** What the two window scans decide, without the scans. */
  predicate UnderRules(entries: map<nat, VoteData>, source: nat, target: nat) {
    && target !in entries
    && (forall b :: b in entries && BackwardStart(source, target) <= b < target ==>
                      entries[b].sourceNumber <= source)
    && (forall b :: b in entries && target < b <= target + UPPER_LIMIT_OF_VOTE_BLOCK_NUMBER ==>
                      source <= entries[b].sourceNumber)
  }

  // ----- the journal file -----

  /** A line as the reader sees it after parsing. */
  datatype Line = Record(vote: VoteData) | Unparsable | Blank

  /** What follows the last newline: nothing, a piece of a record, or a record whose
      newline is missing. */
  datatype Tail = Clean | Fragment | Unterminated(vote: VoteData)

  datatype Disk = Disk(lines: seq<Line>, tail: Tail)

  /** What a failed or interrupted append leaves in the file. */
  datatype Residue = RolledBack | PartOfLine | LineWithoutNewline | WholeLine

  /** A full line written at the end of the file joins whatever tail was there. */
  function AppendLine(d: Disk, v: VoteData): Disk {
    Disk(d.lines + [if d.tail.Clean? then Record(v) else Unparsable], Clean)
  }

  function Leave(d: Disk, v: VoteData, residue: Residue): Disk {
    match residue
    case RolledBack => d
    case PartOfLine => d.(tail := Fragment)
    case LineWithoutNewline => d.(tail := if d.tail.Clean? then Unterminated(v) else Fragment)
    case WholeLine => AppendLine(d, v)
  }

  /** The lines a reader iterates over, the unterminated last one included. */
  function ReadLines(d: Disk): seq<Line> {
    match d.tail
    case Clean => d.lines
    case Fragment => d.lines + [Unparsable]
    case Unterminated(v) => d.lines + [Record(v)]
  }

  function Records(lines: seq<Line>): seq<VoteData> {
    if |lines| == 0 then []
    else
      var last := lines[|lines| - 1];
      Records(lines[..|lines| - 1]) + (if last.Record? then [last.vote] else [])
  }

  /** The votes that survive a restart. */
  function Parsed(d: Disk): seq<VoteData> {
    Records(ReadLines(d))
  }

  function Recent(h: seq<VoteData>): seq<VoteData> {
    if |h| <= MAX_RECENT_ENTRIES then h else h[|h| - MAX_RECENT_ENTRIES..]
  }

  function LoadedFrom(votes: seq<VoteData>): LruState {
    if |votes| == 0 then EMPTY_LRU
    else
      var last := votes[|votes| - 1];
      Added(LoadedFrom(votes[..|votes| - 1]), MAX_RECENT_ENTRIES, last.targetNumber, last)
  }

  function Load(d: Disk): LruState {
    LoadedFrom(Recent(Parsed(d)))
  }

  lemma ReadOneMore(lines: seq<Line>, line: Line)
    ensures var before := Recent(Records(lines));
            Recent(Records(lines + [line])) ==
            if !line.Record? then before
            else if |before + [line.vote]| > MAX_RECENT_ENTRIES then (before + [line.vote])[1..]
            else before + [line.vote]
    ensures Recent(Records([])) == []
  {
    assert (lines + [line])[..|lines|] == lines;
  }

  method LoadFromDisk(d: Disk) returns (lru: VoteDataLru)
    ensures fresh(lru) && lru.capacity == MAX_RECENT_ENTRIES
    ensures lru.State() == Load(d)
  {
    var buf := ReadRecent(ReadLines(d));
    lru := new VoteDataLru(MAX_RECENT_ENTRIES);
    for i := 0 to |buf|
      invariant lru.capacity == MAX_RECENT_ENTRIES
      invariant lru.State() == LoadedFrom(buf[..i])
    {
      assert buf[..i + 1][..i] == buf[..i];
      lru.Add(buf[i].targetNumber, buf[i]);
    }
    assert buf[..|buf|] == buf;
  }

  method ReadRecent(lines: seq<Line>) returns (buf: seq<VoteData>)
    ensures buf == Recent(Records(lines))
  {
    hide Recent, Records;
    buf := [];
    ReadOneMore([], Blank);
    assert lines[..0] == [];
    for i := 0 to |lines|
      invariant buf == Recent(Records(lines[..i]))
    {
      assert lines[..i + 1] == lines[..i] + [lines[i]];
      ReadOneMore(lines[..i], lines[i]);
      match lines[i]
      case Record(v) =>
        buf := buf + [v];
        if |buf| > MAX_RECENT_ENTRIES {
          buf := buf[1..];
        }
      case Unparsable =>
      case Blank =>
    }
    assert lines[..|lines|] == lines;
  }

  // ----- the journal -----

  datatype Journal = Journal(lru: LruState, disk: Disk)

  /** How the file system answers one append: the open or the length query fails before a
      byte is written, everything succeeds, or the write or the sync fails. */
  datatype Io = OpenFailed | Stored | WriteFailed(residue: Residue)

  datatype WriteResult = Accepted | RuleViolation | StorageFault

  function Written(j: Journal, v: VoteData, io: Io): (Journal, WriteResult) {
    if !UnderRules(j.lru.entries, v.sourceNumber, v.targetNumber) then
      (j, RuleViolation)
    else
      var claimed := Added(j.lru, MAX_RECENT_ENTRIES, v.targetNumber, v);
      match io
      case OpenFailed => (j, StorageFault)
      case Stored => (Journal(claimed, AppendLine(j.disk, v)), Accepted)
      case WriteFailed(residue) => (Journal(claimed, Leave(j.disk, v, residue)), StorageFault)
  }

  class VoteJournal {
    const lru: VoteDataLru
    var disk: Disk

    ghost predicate Valid() {
      lru.capacity == MAX_RECENT_ENTRIES
    }

    ghost function View(): Journal
      reads this, lru
    {
      Journal(lru.State(), disk)
    }

    constructor (d: Disk)
      ensures Valid() && fresh(lru)
      ensures View() == Journal(Load(d), d)
    {
      var loaded := LoadFromDisk(d);
      lru := loaded;
      disk := d;
    }

    method CheckRules(source: nat, target: nat) returns (ok: bool)
      ensures ok <==> UnderRules(View().lru.entries, source, target)
    {
      var duplicate := lru.Contains(target);
      if duplicate {
        return false;
      }
      var block := source + 1;
      if block + MALICIOUS_VOTE_SLASH_SCOPE < target {
        block := if target < MALICIOUS_VOTE_SLASH_SCOPE then 0 else target - MALICIOUS_VOTE_SLASH_SCOPE;
      }
      while block < target
        invariant BackwardStart(source, target) <= block
        invariant forall b :: b in lru.entries && BackwardStart(source, target) <= b < block && b < target ==>
                                lru.entries[b].sourceNumber <= source
      {
        var seen := lru.Get(block);
        if seen.Some? && seen.value.sourceNumber > source {
          return false;
        }
        block := block + 1;
      }
      var above := target + 1;
      var upper := target + UPPER_LIMIT_OF_VOTE_BLOCK_NUMBER;
      while above <= upper
        invariant target < above
        invariant forall b :: b in lru.entries && target < b < above && b <= upper ==>
                                source <= lru.entries[b].sourceNumber
      {
        var seen := lru.Get(above);
        if seen.Some? && seen.value.sourceNumber < source {
          return false;
        }
        above := above + 1;
      }
      return true;
    }

    method WriteVote(v: VoteData, io: Io) returns (result: WriteResult)
      requires Valid()
      modifies this, lru
      ensures Valid()
      ensures (View(), result) == Written(old(View()), v, io)
    {
      var allowed := CheckRules(v.sourceNumber, v.targetNumber);
      if !allowed {
        return RuleViolation;
      }
      match io {
        case OpenFailed =>
          return StorageFault;
        case Stored =>
          disk := AppendLine(disk, v);
          result := Accepted;
        case WriteFailed(residue) =>
          disk := Leave(disk, v, residue);
          result := StorageFault;
      }
      lru.Add(v.targetNumber, v);
    }
  }
}
