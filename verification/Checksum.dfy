/** 64-bit file checksums, their reserved values, and which accesses can tell two of them apart. */
module Checksum {
  import opened Basics

  datatype Access = Lnk | Reg | Stat | Err

  type Accesses = set<Access>

  const ALL_ACCESSES: Accesses := {Lnk, Reg, Stat, Err}
  const FULL_ACCESSES: Accesses := {Lnk, Reg, Stat}

  function Complement(a: Accesses): Accesses { ALL_ACCESSES - a }

  const TWO_56: nat := 0x100_0000_0000_0000

  type Crc = c: nat | c < TWO_64

  const UNKNOWN: Crc := 0
  const LNK: Crc := 1
  const REG: Crc := 2
  const NONE: Crc := 3
  const EMPTY: Crc := 4
  const N_SPECIALS: Crc := 6

  predicate Plain(c: Crc) { c >= N_SPECIALS }

  /** The value stands for one precise content (or for no file). */
  predicate Valid(c: Crc) { c >= NONE }

  predicate IsLnk(c: Crc) { if Plain(c) then c % 2 == 1 else c == LNK }

  predicate IsReg(c: Crc) { if Plain(c) then c % 2 == 0 else c == REG || c == EMPTY }

  /** The bits under the check mask agree although the values differ. */
  predicate NearClash(a: Crc, b: Crc) {
    a != b && a % TWO_56 == b % TWO_56 && (Plain(a) || Plain(b))
  }

  /** The accesses that perceive the difference between `a` and `b`; None when the program
      stops because the two checksums are suspiciously close. */
  function DiffAccesses(a: Crc, b: Crc): Option<Accesses> {
    if Valid(a) && Valid(b) && a == b then Some({})
    else if Valid(a) && Valid(b) && NearClash(a, b) then None
    else Some(
      if IsReg(a) then
        if IsReg(b) then {Reg}
        else if IsLnk(b) then Complement({Stat})
        else if b == NONE then Complement({Lnk})
        else FULL_ACCESSES
      else if IsLnk(a) then
        if IsReg(b) then Complement({Stat})
        else if IsLnk(b) then {Lnk}
        else if b == NONE then Complement({Reg})
        else FULL_ACCESSES
      else if a == NONE then
        if IsReg(b) then Complement({Lnk})
        else if IsLnk(b) then Complement({Reg})
        else FULL_ACCESSES
      else FULL_ACCESSES)
  }

  /** Some(true) when no access of `acc` perceives a difference, None when the program stops. */
  function Match(a: Crc, b: Crc, acc: Accesses): Option<bool> {
    match DiffAccesses(a, b)
    case None => None
    case Some(diff) => Some(diff !! acc)
  }

  // ----- what an access sees of a file -----

  datatype File = Absent | Link(target: string) | Regular(content: seq<int>, exe: bool)

  datatype Sight = Nothing | Something | Target(target: string) | Data(content: seq<int>, exe: bool)

  /** Links look missing to a regular access and regular files look missing to readlink. */
  function See(x: Access, f: File): Sight
    requires x in FULL_ACCESSES
  {
    match x
    case Lnk => if f.Link? then Target(f.target) else Nothing
    case Reg => if f.Regular? then Data(f.content, f.exe) else Nothing
    case Stat => if f.Absent? then Nothing else Something
  }

  const EMPTY_FILE: File := Regular([], false)

  /** The checksum of a file, for a digest `h` whose low bit is overwritten by the link flag. */
  function CrcOf(h: File -> Crc, f: File): Crc {
    if f.Absent? then NONE
    else if f == EMPTY_FILE then EMPTY
    else if f.Link? then (if h(f) % 2 == 1 then h(f) else h(f) + 1)
    else h(f) - h(f) % 2
  }

  /** Among the files of `u`, digests of distinct contents are distinct and stay clear of the
      reserved values. */
  ghost predicate CollisionFree(h: File -> Crc, u: set<File>) {
    && (forall f: File :: f in u && f != Absent && f != EMPTY_FILE ==> Plain(CrcOf(h, f)))
    && (forall f, g :: f in u && g in u && CrcOf(h, f) == CrcOf(h, g) ==> f == g)
  }

  /** File `f` is one of those checksum `c` may stand for. */
  ghost predicate Describes(h: File -> Crc, c: Crc, f: File) {
    if c == UNKNOWN then true
    else if c == LNK then f.Link?
    else if c == REG then f.Regular?
    else CrcOf(h, f) == c
  }

  /** For two precise checksums, the answer names exactly the accesses that see a difference. */
  lemma {:induction false} DiffIsExact(h: File -> Crc, u: set<File>, a: Crc, b: Crc, f: File, g: File, x: Access)
    requires CollisionFree(h, u) && f in u && g in u && Describes(h, a, f) && Describes(h, b, g)
    requires Valid(a) && Valid(b) && x in FULL_ACCESSES && DiffAccesses(a, b).Some?
    ensures x in DiffAccesses(a, b).value <==> See(x, f) != See(x, g)
  {
    assert CrcOf(h, f) == a && CrcOf(h, g) == b;
    assert a == b <==> f == g;
    KindOf(h, u, a, f);
    KindOf(h, u, b, g);
  }

  lemma {:induction false} KindOf(h: File -> Crc, u: set<File>, c: Crc, f: File)
    requires CollisionFree(h, u) && f in u && CrcOf(h, f) == c
    ensures IsReg(c) <==> f.Regular?
    ensures IsLnk(c) <==> f.Link?
    ensures c == NONE <==> f.Absent?
  {
    if !f.Absent? && f != EMPTY_FILE {
      assert Plain(CrcOf(h, f));
    }
  }

  /** Whatever is known of the two files, accesses that match cannot tell them apart. */
  lemma {:induction false} MatchHidesDifferences(h: File -> Crc, u: set<File>, a: Crc, b: Crc, f: File, g: File, acc: Accesses)
    requires CollisionFree(h, u) && f in u && g in u && Describes(h, a, f) && Describes(h, b, g)
    requires Match(a, b, acc) == Some(true)
    ensures forall x :: x in acc && x in FULL_ACCESSES ==> See(x, f) == See(x, g)
  {
    forall x | x in acc && x in FULL_ACCESSES
      ensures See(x, f) == See(x, g)
    {
      assert x !in DiffAccesses(a, b).value;
      if Valid(a) && Valid(b) {
        DiffIsExact(h, u, a, b, f, g, x);
      } else {
        SeenKind(h, u, a, f);
        SeenKind(h, u, b, g);
      }
    }
  }

  lemma {:induction false} SeenKind(h: File -> Crc, u: set<File>, c: Crc, f: File)
    requires CollisionFree(h, u) && f in u && Describes(h, c, f)
    ensures IsReg(c) ==> f.Regular?
    ensures IsLnk(c) ==> f.Link?
    ensures c == NONE ==> f.Absent?
  {
    if Valid(c) {
      KindOf(h, u, c, f);
    }
  }
}
