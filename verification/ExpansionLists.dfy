/** The lists behind %rep and macro calls in preproc.c: end markers on `istk->expansion`,
    the `next_active` chain on `istk->mstk`, and the `rep_nest` chain on `defining`. */
module ExpansionLists {
  import opened Wrappers
  import R = Repeat

  /** An MMacro.  Without a name it is a %rep block.  Blocks are referred to by number; the
      body is in source order (the list holds it reversed, and is reversed when pushed). */
  datatype Block = Block(name: Option<string>, inProgress: int, body: seq<R.Line>,
                         nextActive: Option<nat>, repNest: Option<nat>)

  /** A Line of the expansion list: a source line, or a marker whose `finishes` is a block. */
  datatype Item = Source(line: R.Line) | Finishes(block: nat)

  datatype Lists = Lists(expansion: seq<Item>, input: seq<R.Line>, blocks: seq<Block>,
                         mstk: Option<nat>, defining: Option<nat>, out: seq<string>, fatal: bool)

  /** The hash table of multi-line macros. */
  type Index = map<string, nat>

  predicate IsBlock(blocks: seq<Block>, id: nat) {
    id < |blocks| && blocks[id].name.None?
  }

  predicate IsMacro(blocks: seq<Block>, id: nat) {
    id < |blocks| && blocks[id].name.Some?
  }

  predicate Plain(l: R.Line) {
    l.Text? || l.Call?
  }

  // ----- reading the lists -----

  /** The blocks that markers finish, innermost first. */
  function Markers(e: seq<Item>): seq<nat> {
    if |e| == 0 then [] else (if e[0].Finishes? then [e[0].block] else []) + Markers(e[1..])
  }

  function First(e: seq<Item>): Option<nat> {
    if |e| == 0 then None else if e[0].Finishes? then Some(e[0].block) else First(e[1..])
  }

  /** The innermost marker that finishes a macro call rather than a %rep block. */
  function FirstMacro(blocks: seq<Block>, e: seq<Item>): Option<nat> {
    if |e| == 0 then None
    else if e[0].Finishes? && IsMacro(blocks, e[0].block) then Some(e[0].block)
    else FirstMacro(blocks, e[1..])
  }

  /** What the question in the code is about: from the top down, every marker finishes the
      block that `mstk`, followed along `next_active`, is at. */
  predicate Chained(blocks: seq<Block>, e: seq<Item>, m: Option<nat>) {
    if |e| == 0 then m.None?
    else if e[0].Source? then Chained(blocks, e[1..], m)
    else m == Some(e[0].block) && e[0].block < |blocks| && Chained(blocks, e[1..], blocks[e[0].block].nextActive)
  }

  /** Lines in front of a block's marker are plain, and the block is in progress. */
  predicate Regions(blocks: seq<Block>, e: seq<Item>) {
    if |e| == 0 then true
    else
      && Regions(blocks, e[1..])
      && (e[0].Source? && First(e).Some? && IsBlock(blocks, First(e).value) ==>
            Plain(e[0].line) && blocks[First(e).value].inProgress >= 1)
  }

  predicate NoneTwice(e: seq<Item>) {
    |e| == 0 || (NoneTwice(e[1..]) && (e[0].Finishes? ==> e[0].block !in Markers(e[1..])))
  }

  /** The definitions in hand, from the innermost out: unnamed, plain, unfinished, each
      started under the innermost macro call, and older than the one inside it. */
  predicate Defs(blocks: seq<Block>, d: Option<nat>, e: seq<Item>)
    decreases match d case None => 0 case Some(id) => id + 1
  {
    match d
    case None => true
    case Some(id) =>
      && IsBlock(blocks, id) && id !in Markers(e)
      && R.IsFlat(blocks[id].body) && blocks[id].nextActive == FirstMacro(blocks, e)
      && (blocks[id].repNest.Some? ==> blocks[id].repNest.value < id)
      && Defs(blocks, blocks[id].repNest, e)
  }

  /** The macros of the table. */
  ghost predicate Tabled(env: R.Macros, index: Index, blocks: seq<Block>, e: seq<Item>) {
    && index.Keys == env.Keys
    && (forall n :: n in index ==> index[n] < |blocks| && blocks[index[n]].name == Some(n)
                                   && blocks[index[n]].body == R.Lines(env[n]))
    && (forall n :: n in index ==> blocks[index[n]].inProgress == if index[n] in Markers(e) then 1 else 0)
    && (forall id: nat :: IsMacro(blocks, id) ==> blocks[id].name.value in index && index[blocks[id].name.value] == id)
  }

  /** Unnamed blocks in the list repeat plain lines. */
  ghost predicate PlainBodies(blocks: seq<Block>) {
    forall id: nat :: IsBlock(blocks, id) ==> R.IsFlat(blocks[id].body)
  }

  ghost predicate Invariant(env: R.Macros, index: Index, s: Lists) {
    && Chained(s.blocks, s.expansion, s.mstk)
    && Regions(s.blocks, s.expansion)
    && NoneTwice(s.expansion)
    && Defs(s.blocks, s.defining, s.expansion)
    && Tabled(env, index, s.blocks, s.expansion)
    && PlainBodies(s.blocks)
  }

  // ----- one turn of pp_getline -----

  function Sources(ls: seq<R.Line>): seq<Item> {
    if |ls| == 0 then [] else [Source(ls[0])] + Sources(ls[1..])
  }

  function Changed(s: Lists, id: nat, b: Block): Lists
    requires id < |s.blocks|
  {
    s.(blocks := s.blocks[id := b])
  }

  /** A marker at the head of the list. */
  function MarkerStep(s: Lists, id: nat): Lists
    requires |s.expansion| > 0 && id < |s.blocks| && s.mstk.Some? && s.mstk.value < |s.blocks|
  {
    var b, m := s.blocks[id], s.mstk.value;
    if b.name.None? && b.inProgress > 1 then
      Changed(s, id, b.(inProgress := b.inProgress - 1)).(expansion := Sources(b.body) + s.expansion)
    else if s.defining.Some? && s.blocks[m].name.Some? then s.(fatal := true)
    else
      var t := s.(mstk := s.blocks[m].nextActive, expansion := s.expansion[1..]);
      if s.blocks[m].name.Some? then Changed(t, id, b.(inProgress := 0)) else t
  }

  predicate Dead(s: Lists) {
    s.mstk.Some? && s.mstk.value < |s.blocks| && s.blocks[s.mstk.value].inProgress == 0
  }

  /** A line, already taken off its list. */
  function LineStep(index: Index, s: Lists, l: R.Line): Lists
    requires s.defining.Some? ==> s.defining.value < |s.blocks|
    requires forall n :: n in index ==> index[n] < |s.blocks|
  {
    if l.Rep? && !Dead(s) && !(s.defining.Some? && s.blocks[s.defining.value].name.Some?) then
      s.(blocks := s.blocks + [Block(None, R.InProgress(l.count), [], s.mstk, s.defining)],
         defining := Some(|s.blocks|))
    else if l.EndRep? && !Dead(s) && !(s.defining.Some? && s.blocks[s.defining.value].name.Some?) then
      if s.defining.None? then s
      else
        var d := s.defining.value;
        s.(expansion := [Finishes(d)] + s.expansion, mstk := Some(d), defining := s.blocks[d].repNest)
    else if s.defining.Some? then
      var d := s.defining.value;
      Changed(s, d, s.blocks[d].(body := s.blocks[d].body + [l]))
    else if Dead(s) then s
    else
      match l
      case Text(t) => s.(out := s.out + [t])
      case Call(name) =>
        if name in index && s.blocks[index[name]].inProgress <= 0 then
          var m := index[name];
          var b := s.blocks[m];
          Changed(s, m, b.(inProgress := b.inProgress + 1, nextActive := s.mstk)).(
            expansion := Sources(b.body) + ([Finishes(m)] + s.expansion), mstk := Some(m))
        else s.(out := s.out + [name])
      case _ => s
  }

  function Turn(index: Index, s: Lists): Lists
    requires |s.expansion| > 0 && s.expansion[0].Finishes? ==>
               s.expansion[0].block < |s.blocks| && s.mstk.Some? && s.mstk.value < |s.blocks|
    requires s.defining.Some? ==> s.defining.value < |s.blocks|
    requires forall n :: n in index ==> index[n] < |s.blocks|
  {
    if s.fatal then s
    else if |s.expansion| > 0 && s.expansion[0].Finishes? then MarkerStep(s, s.expansion[0].block)
    else if |s.expansion| > 0 then LineStep(index, s.(expansion := s.expansion[1..]), s.expansion[0].line)
    else if |s.input| > 0 then LineStep(index, s.(input := s.input[1..]), s.input[0])
    else s
  }

  // ----- the worklist these lists stand for -----

  function Abstract(blocks: seq<Block>, i: Item): R.Item
    requires i.Finishes? ==> i.block < |blocks|
  {
    match i
    case Source(l) => R.Source(l)
    case Finishes(id) =>
      var b := blocks[id];
      if b.name.Some? then R.MacroEnd(b.name.value) else R.BlockEnd(b.inProgress, b.body)
  }

  predicate InRange(blocks: seq<Block>, e: seq<Item>) {
    forall k :: 0 <= k < |e| && e[k].Finishes? ==> e[k].block < |blocks|
  }

  function Work(blocks: seq<Block>, e: seq<Item>): seq<R.Item>
    requires InRange(blocks, e)
  {
    if |e| == 0 then [] else [Abstract(blocks, e[0])] + Work(blocks, e[1..])
  }

  function Definitions(blocks: seq<Block>, d: Option<nat>): seq<R.Definition>
    decreases match d case None => 0 case Some(id) => id + 1
  {
    match d
    case None => []
    case Some(id) =>
      if id >= |blocks| || (blocks[id].repNest.Some? && blocks[id].repNest.value >= id) then []
      else [R.Definition(blocks[id].inProgress, blocks[id].body)] + Definitions(blocks, blocks[id].repNest)
  }

  function Active(index: Index, blocks: seq<Block>): set<string> {
    set n | n in index && index[n] < |blocks| && blocks[index[n]].inProgress > 0
  }

  function View(index: Index, s: Lists): R.State
    requires InRange(s.blocks, s.expansion)
  {
    R.State(Work(s.blocks, s.expansion) + R.Sources(s.input), Definitions(s.blocks, s.defining),
            Active(index, s.blocks), s.out, s.fatal)
  }
}
