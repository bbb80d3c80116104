/** The puzzle structure the generator works on: the slots to fill, the word list, and how
    slots overlap. Parsing the structure and word files is not part of this model; their
    outputs are taken as given values. */
module Crossword {
  import opened Wrappers

  datatype Direction = Across | Down

  /** A slot: its first cell `(i, j)`, its direction and its length. */
  datatype Variable = Variable(i: int, j: int, direction: Direction, length: nat)

  type Word = string

  /** Where two slots cross: the index of the shared cell in the first slot's word and in
      the second slot's word. */
  type Overlap = (nat, nat)

  datatype Structure = Structure(
    variables: set<Variable>,
    words: set<Word>,
    overlaps: map<(Variable, Variable), Option<Overlap>>)

  /** The swapped overlap, as seen from the other slot. */
  function Swap(o: Option<Overlap>): Option<Overlap>
  {
    if o.None? then None else Some((o.value.1, o.value.0))
  }

  /** `overlaps` has an entry for every ordered pair of distinct slots, and only those; an
      overlap's indices lie inside both slots; and the entry for `(y, x)` is the entry for
      `(x, y)` swapped. */
  ghost predicate Valid(cw: Structure)
  {
    && (forall x, y :: (x, y) in cw.overlaps <==> x in cw.variables && y in cw.variables && x != y)
    && (forall x, y :: (x, y) in cw.overlaps && cw.overlaps[(x, y)].Some? ==>
         cw.overlaps[(x, y)].value.0 < x.length && cw.overlaps[(x, y)].value.1 < y.length)
    && (forall x, y :: (x, y) in cw.overlaps ==> cw.overlaps[(y, x)] == Swap(cw.overlaps[(x, y)]))
  }

  /** The slots that cross `x` (the `crossword` module's `neighbors`, taken as given). */
  function Neighbors(cw: Structure, x: Variable): set<Variable>
    requires Valid(cw)
  {
    set y | y in cw.variables && y != x && x in cw.variables && cw.overlaps[(x, y)].Some?
  }

  /** Word `w` is long enough to be read at every overlap index of slot `v` (indexing it
      otherwise raises `IndexError`). */
  ghost predicate WordFits(cw: Structure, v: Variable, w: Word)
  {
    forall u :: (v, u) in cw.overlaps && cw.overlaps[(v, u)].Some? ==> cw.overlaps[(v, u)].value.0 < |w|
  }

  /** A word of exactly the slot's length fits it. */
  lemma RightLengthFits(cw: Structure, v: Variable, w: Word)
    requires Valid(cw) && |w| == v.length
    ensures WordFits(cw, v, w)
  {
  }
}
