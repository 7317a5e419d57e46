/** Four-level address translation (Intel SDM Volume 3A, section 4.5) and the windows onto the
    page tables that the self-referencing entry 510 of the top-level table opens
    (src/boot/virtualmemmgmt.cpp, lines 7-18 and 586-663). */
module PageWalk {

  import opened Options

  // ----- addresses -----

  const KIB_4: nat := 4096
  const MIB_2: nat := 0x20_0000
  const GIB_1: nat := 0x4000_0000
  const ADDRESS_LIMIT: nat := 0x1_0000_0000_0000_0000
  const NON_CANONICAL_START: nat := 0x8000_0000_0000
  const NON_CANONICAL_END: nat := ADDRESS_LIMIT - NON_CANONICAL_START
  const RECURSIVE_ENTRY: nat := 510
  const PT_MASK: nat := ADDRESS_LIMIT - 1 - 1024 * GIB_1 + 1
  const PD_MASK: nat := PT_MASK + RECURSIVE_ENTRY * GIB_1
  const PDPT_MASK: nat := PD_MASK + RECURSIVE_ENTRY * MIB_2
  const PML4T: nat := PDPT_MASK + RECURSIVE_ENTRY * KIB_4

  predicate IsCanonical(address: nat) {
    address < NON_CANONICAL_START || (NON_CANONICAL_END <= address < ADDRESS_LIMIT)
  }

  /** Canonical addresses are those whose bits 47 to 63 are all equal. */
  lemma CanonicalMeansSignExtended(address: nat)
    requires address < ADDRESS_LIMIT
    ensures IsCanonical(address) <==> address / NON_CANONICAL_START == 0 || address / NON_CANONICAL_START == 0x1_FFFF
  {
  }

  /** The index into the table of a level: nine bits of the address. */
  function Index(address: nat, level: nat): (i: nat)
    requires 1 <= level <= 4
    ensures i < 512
  {
    match level
    case 1 => address / 0x1000 % 512
    case 2 => address / 0x20_0000 % 512
    case 3 => address / 0x4000_0000 % 512
    case _ => address / 0x80_0000_0000 % 512
  }

  /** Where the table of a level that serves `address` appears in virtual memory. */
  function Window(address: nat, level: nat): nat
    requires 1 <= level <= 4
  {
    match level
    case 1 => PT_MASK + Index(address, 4) * GIB_1 + Index(address, 3) * MIB_2 + Index(address, 2) * KIB_4
    case 2 => PD_MASK + Index(address, 4) * MIB_2 + Index(address, 3) * KIB_4
    case 3 => PDPT_MASK + Index(address, 4) * KIB_4
    case _ => PML4T
  }

  /** An address put together from its four indexes in the slot of the self-referencing entry. */
  lemma RecursiveIndexes(i3: nat, i2: nat, i1: nat, offset: nat)
    requires i3 < 512 && i2 < 512 && i1 < 512 && offset < 4096
    ensures var a := PT_MASK + i3 * GIB_1 + i2 * MIB_2 + i1 * KIB_4 + offset;
      && Index(a, 4) == RECURSIVE_ENTRY && Index(a, 3) == i3 && Index(a, 2) == i2 && Index(a, 1) == i1
      && IsCanonical(a) && a % 4096 == offset
  {
    var a := PT_MASK + i3 * GIB_1 + i2 * MIB_2 + i1 * KIB_4 + offset;
    var base := PT_MASK / 0x80_0000_0000;
    var n3 := base * 512 + i3;
    var n2 := n3 * 512 + i2;
    var n1 := n2 * 512 + i1;
    assert a == n1 * 4096 + offset;
    DigitOff(n1, offset, 4096);
    DigitOff(n2, i1, 512);
    DigitOff(n3, i2, 512);
    DigitOff(base, i3, 512);
    ShiftedTwice(a);
  }

  lemma DigitOff(n: nat, i: nat, size: nat)
    requires (size == 512 || size == 4096) && i < size
    ensures (n * size + i) / size == n && (n * size + i) % size == i
  {
  }

  lemma ShiftedTwice(address: nat)
    ensures address / 4096 / 512 == address / 0x20_0000
    ensures address / 0x20_0000 / 512 == address / 0x4000_0000
    ensures address / 0x4000_0000 / 512 == address / 0x80_0000_0000
  {
  }

  // ----- tables -----

  /** The fields of a table entry that the kernel uses. */
  datatype Entry = Entry(present: bool, writable: bool, cacheDisable: bool, executeDisable: bool, frame: nat)

  /** Physical memory as tables: the 512 entries of each page frame. */
  type Ram = map<nat, seq<Entry>>

  /** One step of the walk. */
  function Follow(ram: Ram, frame: Option<nat>, index: nat): Option<nat> {
    if frame.Some? && frame.value in ram && index < |ram[frame.value]| && ram[frame.value][index].present
    then Some(ram[frame.value][index].frame)
    else None
  }

  /** The frame that the walk of an address reaches: level 4 is the root, level 0 the page itself. */
  function LevelFrame(ram: Ram, root: nat, address: nat, level: nat): Option<nat>
    requires level <= 4
    decreases 4 - level
  {
    if level == 4 then Some(root)
    else Follow(ram, LevelFrame(ram, root, address, level + 1), Index(address, level + 1))
  }

  /** What the processor makes of a virtual address. */
  function Translate(ram: Ram, root: nat, address: nat): Option<nat> {
    var f := LevelFrame(ram, root, address, 0);
    if IsCanonical(address) && f.Some? then Some(f.value * 4096 + address % 4096) else None
  }

  /** Entry `index` of the table in a virtual page, as a load instruction sees it. */
  function Load(ram: Ram, root: nat, page: nat, index: nat): Option<Entry>
    requires index < 512
  {
    match Translate(ram, root, page + 8 * index)
    case None => None
    case Some(a) =>
      var f, i := a / 4096, a % 4096 / 8;
      if f in ram && i < |ram[f]| then Some(ram[f][i]) else None
  }

  ghost predicate SelfMapped(ram: Ram, root: nat) {
    && root in ram && |ram[root]| == 512
    && ram[root][RECURSIVE_ENTRY].present && ram[root][RECURSIVE_ENTRY].frame == root
  }

  /** The walk of an address in slot 510 is a walk of its lower indexes one level up. */
  lemma RecursiveWalk(ram: Ram, root: nat, i3: nat, i2: nat, i1: nat, offset: nat)
    requires SelfMapped(ram, root) && i3 < 512 && i2 < 512 && i1 < 512 && offset < 4096
    ensures var a := PT_MASK + i3 * GIB_1 + i2 * MIB_2 + i1 * KIB_4 + offset;
      && LevelFrame(ram, root, a, 0) == Follow(ram, Follow(ram, Follow(ram, Some(root), i3), i2), i1)
      && IsCanonical(a) && a % 4096 == offset
  {
    var a := PT_MASK + i3 * GIB_1 + i2 * MIB_2 + i1 * KIB_4 + offset;
    RecursiveIndexes(i3, i2, i1, offset);
    assert LevelFrame(ram, root, a, 3) == Some(root);
    assert LevelFrame(ram, root, a, 2) == Follow(ram, Some(root), i3);
    assert LevelFrame(ram, root, a, 1) == Follow(ram, Follow(ram, Some(root), i3), i2);
  }

  lemma LevelsUnfolded(ram: Ram, root: nat, address: nat)
    ensures LevelFrame(ram, root, address, 3) == Follow(ram, Some(root), Index(address, 4))
    ensures LevelFrame(ram, root, address, 2)
            == Follow(ram, Follow(ram, Some(root), Index(address, 4)), Index(address, 3))
    ensures LevelFrame(ram, root, address, 1) ==
              Follow(ram, Follow(ram, Follow(ram, Some(root), Index(address, 4)), Index(address, 3)), Index(address, 2))
  {
    assert LevelFrame(ram, root, address, 4) == Some(root);
    assert LevelFrame(ram, root, address, 3) == Follow(ram, Some(root), Index(address, 4));
  }

  /** The indexes of a window below slot 510: as many of the address's as the level leaves. */
  function WindowIndexes(address: nat, level: nat): (nat, nat, nat)
    requires 1 <= level <= 4
  {
    var i4, i3, i2 := Index(address, 4), Index(address, 3), Index(address, 2);
    match level
    case 1 => (i4, i3, i2)
    case 2 => (RECURSIVE_ENTRY, i4, i3)
    case 3 => (RECURSIVE_ENTRY, RECURSIVE_ENTRY, i4)
    case _ => (RECURSIVE_ENTRY, RECURSIVE_ENTRY, RECURSIVE_ENTRY)
  }

  lemma WindowIs(address: nat, level: nat)
    requires 1 <= level <= 4
    ensures var (a, b, c) := WindowIndexes(address, level);
      a < 512 && b < 512 && c < 512 && Window(address, level) == PT_MASK + a * GIB_1 + b * MIB_2 + c * KIB_4
  {
  }

  /** The window onto the table of a level leads to the frame that holds that table; where the
      table is not present the window is not mapped either. */
  lemma WindowLeadsToTable(ram: Ram, root: nat, address: nat, level: nat, offset: nat)
    requires SelfMapped(ram, root) && 1 <= level <= 4 && offset < 4096
    ensures LevelFrame(ram, root, Window(address, level) + offset, 0) == LevelFrame(ram, root, address, level)
    ensures IsCanonical(Window(address, level) + offset) && (Window(address, level) + offset) % 4096 == offset
  {
    var (a, b, c) := WindowIndexes(address, level);
    WindowIs(address, level);
    RecursiveWalk(ram, root, a, b, c, offset);
    LevelsUnfolded(ram, root, address);
  }

  lemma EntryAddress(frame: nat, index: nat)
    requires index < 512
    ensures (frame * 4096 + 8 * index) / 4096 == frame && (frame * 4096 + 8 * index) % 4096 / 8 == index
  {
  }

  lemma LoadAt(ram: Ram, root: nat, page: nat, index: nat, a: nat, f: Option<nat>)
    requires index < 512 && a == page + 8 * index && IsCanonical(a) && a % 4096 == 8 * index
             && LevelFrame(ram, root, a, 0) == f
    ensures Load(ram, root, page, index) == EntryIn(ram, f, index)
  {
    if f.Some? {
      EntryAddress(f.value, index);
    }
  }

  /** An entry of the table in a frame. */
  function EntryIn(ram: Ram, f: Option<nat>, index: nat): Option<Entry> {
    if f.Some? && f.value in ram && index < |ram[f.value]| then Some(ram[f.value][index]) else None
  }

  /** Loading an entry through a window reads it in the table's frame. */
  lemma LoadThroughWindow(ram: Ram, root: nat, address: nat, level: nat, index: nat)
    requires SelfMapped(ram, root) && 1 <= level <= 4 && index < 512
    ensures Load(ram, root, Window(address, level), index) == EntryIn(ram, LevelFrame(ram, root, address, level), index)
  {
    var window := Window(address, level);
    var a := window + 8 * index;
    AddressInWindow(ram, root, address, level, 8 * index, window, a);
    LoadAt(ram, root, window, index, a, LevelFrame(ram, root, address, level));
  }

  lemma AddressInWindow(ram: Ram, root: nat, address: nat, level: nat, offset: nat, window: nat, a: nat)
    requires SelfMapped(ram, root) && 1 <= level <= 4 && offset < 4096
    requires window == Window(address, level) && a == window + offset
    ensures LevelFrame(ram, root, a, 0) == LevelFrame(ram, root, address, level) && IsCanonical(a) && a % 4096 == offset
  {
    WindowLeadsToTable(ram, root, address, level, offset);
  }
}
