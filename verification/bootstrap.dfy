/**
 The stack bootstrap ("trampoline") protocol of kraken_start_thread: a fresh
 stack buffer receives two machine words at its highest addresses so that the
 first `ret` of the context switch lands in the thread's entry function, and
 the entry function's own `ret` lands in the guard routine.
 */
module Bootstrap {
  import opened Wrappers

  /** KRAKEN_STACK_SIZE: 2 MiB in both architecture branches. */
  const StackSize: nat := 1024 * 1024 * 2

  /** The architecture branches whose stack layout kraken_start_thread writes. */
  datatype Arch = X86_64 | X86

  /** Width in bytes of one stack word (uint64_t or uint32_t). */
  function WordBytes(a: Arch): (w: nat)
    ensures w == 4 || w == 8
  {
    match a
    case X86_64 => 8
    case X86 => 4
  }

  /** One past the largest address of the architecture. */
  function AddressLimit(a: Arch): nat
  {
    match a
    case X86_64 => 0x1_0000_0000_0000_0000
    case X86 => 0x1_0000_0000
  }

  /**
   A heap block of StackSize bytes returned by malloc: its base address and
   its contents, one entry per stack word (entry i holds bytes
   [i * WordBytes, (i + 1) * WordBytes) of the block).
   */
  datatype Block = Block(base: nat, words: seq<nat>)

  /** What malloc promises about a block it returns for a stack. */
  predicate ValidBlock(a: Arch, b: Block)
  {
    && |b.words| == StackSize / WordBytes(a)
    && b.base + StackSize <= AddressLimit(a)
  }

  /** A byte offset into the block at which a whole, aligned word starts. */
  predicate WordOffset(a: Arch, off: nat)
  {
    off % WordBytes(a) == 0 && off < StackSize
  }

  /** The word stored at byte offset `off` of the block. */
  function Load(a: Arch, b: Block, off: nat): nat
    requires ValidBlock(a, b) && WordOffset(a, off)
  {
    b.words[off / WordBytes(a)]
  }

  /** `*(uintN_t *)&stack[off] = v`. */
  function Store(a: Arch, b: Block, off: nat, v: nat): (r: Block)
    requires ValidBlock(a, b) && WordOffset(a, off)
    ensures ValidBlock(a, r) && r.base == b.base
    ensures Load(a, r, off) == v
    ensures forall o: nat :: WordOffset(a, o) && o != off ==> Load(a, r, o) == Load(a, b, o)
  {
    Block(b.base, b.words[off / WordBytes(a) := v])
  }

  /**
   The `ret` instruction on a stack: read the word the stack pointer addresses
   and move the stack pointer one word up. None when the stack pointer does not
   address a word of this block.
   */
  function Pop(a: Arch, b: Block, sp: nat): Option<(nat, nat)>
    requires ValidBlock(a, b)
  {
    if b.base <= sp && WordOffset(a, sp - b.base)
    then Some((Load(a, b, sp - b.base), sp + WordBytes(a)))
    else None
  }

  /** The two highest words of a stack are whole, aligned words of it. */
  lemma TopWords(a: Arch)
    ensures StackSize % WordBytes(a) == 0
    ensures WordOffset(a, StackSize - WordBytes(a))
    ensures WordOffset(a, StackSize - 2 * WordBytes(a))
  {
  }

  /** `ret` from either of the two highest words, and from above the block. */
  lemma PopTop(a: Arch, b: Block)
    requires ValidBlock(a, b)
    ensures var w := WordBytes(a);
      && Pop(a, b, b.base + StackSize - 2 * w) == Some((Load(a, b, StackSize - 2 * w), b.base + StackSize - w))
      && Pop(a, b, b.base + StackSize - w) == Some((Load(a, b, StackSize - w), b.base + StackSize))
      && Pop(a, b, b.base + StackSize) == None
  {
    TopWords(a);
  }

  /** A prepared stack and the stack pointer to save in the new context. */
  datatype Frame = Frame(stack: Block, sp: nat)

  /**
   Lays out the bootstrap frame: the guard address in the top word, the entry
   address in the word below it, the saved stack pointer at the entry word.
   */
  function Trampoline(a: Arch, b: Block, entry: nat, guard: nat): (f: Frame)
    requires ValidBlock(a, b)
    ensures ValidBlock(a, f.stack) && f.stack.base == b.base
    ensures WordOffset(a, StackSize - WordBytes(a)) && WordOffset(a, StackSize - 2 * WordBytes(a))
    ensures Load(a, f.stack, StackSize - WordBytes(a)) == guard
    ensures Load(a, f.stack, StackSize - 2 * WordBytes(a)) == entry
    ensures f.sp == b.base + StackSize - 2 * WordBytes(a)
    ensures forall o: nat :: WordOffset(a, o) && o < StackSize - 2 * WordBytes(a) ==>
              Load(a, f.stack, o) == Load(a, b, o)
    // the first `ret` enters the entry function, its `ret` enters the guard,
    // and nothing is left above the guard word
    ensures Pop(a, f.stack, f.sp) == Some((entry, f.sp + WordBytes(a)))
    ensures Pop(a, f.stack, f.sp + WordBytes(a)) == Some((guard, b.base + StackSize))
    ensures Pop(a, f.stack, b.base + StackSize) == None
  {
    var w := WordBytes(a);
    TopWords(a);
    var withGuard := Store(a, b, StackSize - w, guard);
    var withEntry := Store(a, withGuard, StackSize - 2 * w, entry);
    var sp := b.base + StackSize - 2 * w;
    PopTop(a, withEntry);
    Frame(withEntry, sp)
  }
}
