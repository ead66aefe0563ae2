/** Directory blocks: sixteen 32-byte entries of a used byte, an inode byte and
    a 30-byte name field. */
module DirBlock {
  import opened Bytes

  const SLOTS := 16
  const ENTRY_SIZE := 32
  const NAME_SIZE := 30

  type Name = seq<byte>

  datatype Slot = Empty | Named(inode: nat, name: Name)

  /** The decoded form of entry `k`; a name field without a NUL decodes to all 30 bytes. */
  function SlotAt(b: Block, k: nat): (s: Slot)
    requires k < SLOTS
    ensures s.Named? ==> |s.name| <= NAME_SIZE && s.inode < 256 && IsCString(s.name)
  {
    if b[32 * k] == 0 then Empty
    else Named(b[32 * k + 1], CStr(b[32 * k + 2 .. 32 * k + 32]))
  }

  /** The C string at the name field of entry `k`. When no NUL ends the field it runs on into the
      entries behind, as far as the block goes. */
  function NameAt(b: Block, k: nat): Name
    requires k < SLOTS
  {
    CStr(b[32 * k + 2..])
  }

  /** Every name in use ends inside its field. */
  predicate Terminated(b: Block) {
    forall k :: 0 <= k < SLOTS && SlotAt(b, k).Named? ==> |SlotAt(b, k).name| < NAME_SIZE
  }

  function Slots(b: Block): (s: seq<Slot>)
    ensures |s| == SLOTS
  {
    seq(SLOTS, k requires 0 <= k < SLOTS => SlotAt(b, k))
  }

  /** Clear entry `k`, then store its used byte, inode byte and name. */
  function WriteEntry(b: Block, k: nat, inode: byte, name: Name): Block
    requires k < SLOTS
  {
    Poke(ClearEntry(b, k), 32 * k, [1, inode] + name)
  }

  function ClearEntry(b: Block, k: nat): Block
    requires k < SLOTS
  {
    Poke(b, 32 * k, Zeros(ENTRY_SIZE))
  }

  /** Clear the name field of entry `k` and store another name in it. */
  function RenameEntry(b: Block, k: nat, name: Name): Block
    requires k < SLOTS
  {
    Poke(Poke(b, 32 * k + 2, Zeros(NAME_SIZE)), 32 * k + 2, name)
  }

  /** A name that ends inside its field is the one that is decoded. */
  lemma NameAtIs(b: Block, k: nat)
    requires k < SLOTS && SlotAt(b, k).Named? && |SlotAt(b, k).name| < NAME_SIZE
    ensures NameAt(b, k) == SlotAt(b, k).name
  {
    var field, name := b[32 * k + 2 .. 32 * k + 32], SlotAt(b, k).name;
    assert field[|name|] == b[32 * k + 2..][|name|];
    assert b[32 * k + 2..][..|name|] == field[..|name|];
    CStrUnique(b[32 * k + 2..], name);
  }

  lemma SlotLocal(b: Block, c: Block, k: nat)
    requires k < SLOTS
    requires forall j :: 32 * k <= j < 32 * k + 32 ==> b[j] == c[j]
    ensures SlotAt(b, k) == SlotAt(c, k)
  {
    assert b[32 * k + 2 .. 32 * k + 32] == c[32 * k + 2 .. 32 * k + 32];
  }

  /** A block that differs from `b` only inside entry `k` decodes like `b` except there. */
  lemma SlotsUpdate(b: Block, c: Block, k: nat)
    requires k < SLOTS
    requires forall j :: 0 <= j < 512 && !(32 * k <= j < 32 * k + 32) ==> b[j] == c[j]
    ensures Slots(c) == Slots(b)[k := SlotAt(c, k)]
  {
    forall m | 0 <= m < SLOTS && m != k
      ensures SlotAt(b, m) == SlotAt(c, m)
    {
      SlotLocal(b, c, m);
    }
  }

  /** An entry is a byte that tells whether it is in use, the number of the inode, and the name with
      a NUL behind it, unless it fills its thirty bytes. */
  lemma SlotIs(b: Block, k: nat)
    requires k < SLOTS
    ensures SlotAt(b, k).Empty? <==> b[32 * k] == 0
    ensures SlotAt(b, k).Named? ==> var name := SlotAt(b, k).name;
              SlotAt(b, k).inode == b[32 * k + 1] && name == b[32 * k + 2 .. 32 * k + 2 + |name|]
              && (|name| == 30 || b[32 * k + 2 + |name|] == 0)
  {
    var field := b[32 * k + 2 .. 32 * k + 32];
    assert field[..|CStr(field)|] == b[32 * k + 2 .. 32 * k + 2 + |CStr(field)|];
  }

  lemma WriteEntrySlots(b: Block, k: nat, inode: byte, name: Name)
    requires k < SLOTS && |name| < NAME_SIZE && IsCString(name)
    ensures Slots(WriteEntry(b, k, inode, name)) == Slots(b)[k := Named(inode, name)]
  {
    var c := WriteEntry(b, k, inode, name);
    SlotsUpdate(b, c, k);
    var field := c[32 * k + 2 .. 32 * k + 32];
    assert field[..|name|] == name;
    assert field[|name|] == c[32 * k + 2 + |name|] == 0;
    CStrUnique(field, name);
  }

  lemma ClearEntrySlots(b: Block, k: nat)
    requires k < SLOTS
    ensures Slots(ClearEntry(b, k)) == Slots(b)[k := Empty]
  {
    SlotsUpdate(b, ClearEntry(b, k), k);
  }

  lemma RenameEntrySlots(b: Block, k: nat, name: Name)
    requires k < SLOTS && |name| < NAME_SIZE && IsCString(name)
    requires SlotAt(b, k).Named?
    ensures Slots(RenameEntry(b, k, name)) == Slots(b)[k := Named(SlotAt(b, k).inode, name)]
  {
    var c := RenameEntry(b, k, name);
    SlotsUpdate(b, c, k);
    var field := c[32 * k + 2 .. 32 * k + 32];
    assert field[..|name|] == name;
    assert field[|name|] == c[32 * k + 2 + |name|] == 0;
    CStrUnique(field, name);
  }

  /** A name of 30 bytes or more fills the field of its entry and leaves no room for the NUL; what is
      more than 30 bytes of it overwrites the entries behind, as far as the block goes. */
  lemma WriteEntryOverlong(b: Block, k: nat, inode: byte, name: Name)
    requires k < SLOTS && |name| >= NAME_SIZE && IsCString(name)
    ensures SlotAt(WriteEntry(b, k, inode, name), k) == Named(inode, name[..NAME_SIZE])
    ensures forall j :: 32 * k + 2 <= j < 512 && j < 32 * k + 2 + |name| ==>
              WriteEntry(b, k, inode, name)[j] == name[j - 32 * k - 2]
    ensures forall j :: 0 <= j < 32 * k || 32 * k + 2 + |name| <= j < 512 ==> WriteEntry(b, k, inode, name)[j] == b[j]
  {
    var c := WriteEntry(b, k, inode, name);
    var field := c[32 * k + 2 .. 32 * k + 32];
    assert field == name[..NAME_SIZE];
    var s := CStr(field);
    assert c[32 * k] == 1 && c[32 * k + 1] == inode;
    assert forall j :: 0 <= j < |field| ==> field[j] in name;
  }

  /** The byte of an overlong name in entry `k` that lands on the inode byte of entry `m`. */
  function Reach(k: nat, m: nat): int { 32 * (m - k) - 1 }

  /** What storing a name in entry `k` does to entry `m`: nothing if it stands in front or the name does
      not reach it; else the entry is in use and names the inode whose number the name has there. */
  lemma WriteEntryReaches(b: Block, k: nat, inode: byte, name: Name, m: nat)
    requires k < SLOTS && m < SLOTS && m != k && |name| >= NAME_SIZE && IsCString(name)
    ensures var slot := SlotAt(WriteEntry(b, k, inode, name), m);
            if m < k || |name| < Reach(k, m) then slot == SlotAt(b, m)
            else if |name| == Reach(k, m) then slot == Named(b[32 * m + 1], CStr(b[32 * m + 2 .. 32 * m + 32]))
            else slot.Named? && slot.inode == name[Reach(k, m)]
  {
    var c := WriteEntry(b, k, inode, name);
    if m < k || |name| < Reach(k, m) {
      SlotLocal(b, c, m);
    } else {
      assert c[32 * m] == name[Reach(k, m) - 1];
      assert name[Reach(k, m) - 1] in name;
      assert |name| == Reach(k, m) ==> c[32 * m + 2 .. 32 * m + 32] == b[32 * m + 2 .. 32 * m + 32];
    }
  }

  lemma ZeroBlockSlots()
    ensures Slots(ZERO_BLOCK) == seq(SLOTS, _ => Empty)
  {
  }
}
