# Brainfuck interpreters and a card library, modelled in Dafny

This project models two parts of the `Playground` Rust repository.

**The Brainfuck toolchain** (`src/bin/brainfuck.rs`) has five parts:
- the stack-based bracket-map builder, in its two copies: one over raw bytes, one over compressed runs;
- the run-length compressor `compress_program`;
- the basic interpreter, which executes one raw byte per step;
- the optimized interpreter, which executes one `(instr, count)` run per step;
- a tape of 2^15 `u8` cells, shared by both interpreters.

Both interpreters are imperative methods over an in-place tape `array`. Each is proved to compute the outcome of one pure tape machine (`BfMachine.Step` / `Exec`). The machine is then used to prove:
- the bracket map is a perfect matching, and it is built exactly when the brackets balance;
- compression round-trips to the comment-free program and yields the unique canonical run-length form;
- the optimized interpreter ends every run exactly as the basic one does: same output bytes, same final tape, same panic, same bracket error.

**The card library** (`src/bin/cards/`) has four parts:
- the 13/17/5 xor-shift generator, a class with a `bv64` state;
- ranks, suits, cards and their text;
- the 52-card `Deck`, a class holding a card `array` and its generator, with the in-place Fisher–Yates `shuffle`, `peek` and the text rendering;
- the five-card `Hand`.

Standard input is modelled as the sequence of lines that `read_until(b'\n')` would return (an empty line stands for end of input). Standard output is the returned byte sequence. Each interpreter run takes a step budget `fuel`. A run that has not finished within it ends in `OutOfFuel`. Every Rust panic in the loops is an explicit outcome `Faulted(output, fault)`:
- `PointerUnderflow`;
- `PointerOutOfRange`;
- `InputExhausted`;
- `MissingMatch`.

The `unwrap` on the bracket map is the outcome `UnbalancedBrackets`.

Files:
- `bf_syntax.dfy`: bytes, the instruction alphabet, runs;
- `bf_machine.dfy`: the tape machine;
- `bf_brackets.dfy`: the bracket map;
- `bf_compress.dfy`: the compressor;
- `bf_interpreters.dfy`: the two `run`s;
- `bf_equivalence.dfy`: optimized vs basic;
- `bf_properties.dfy`: output, input, jumps, arithmetic;
- `cards_xorshift.dfy`, `cards_card.dfy`, `cards_deck.dfy`, `cards_hand.dfy`.

## Model

| member | source | states |
|---|---|---|
| BfSyntax.Unit | src/bin/brainfuck.rs:59-60 | the basic interpreter sees the raw program as one instruction per byte: position `i` holds byte `p[i]` with count 1 |
| BfSyntax.Instrs | src/bin/brainfuck.rs:147-148 | the compressed bracket scan looks only at each run's instruction byte, position by position |
| BfSyntax.Filter | src/bin/brainfuck.rs:113-123 | the comment-free program is no longer than the program and holds only the eight instruction bytes |
| BfMachine.Zeros | src/bin/brainfuck.rs:9 | the initial tape has `MEMORY_SIZE` = 2^15 cells, all zero |
| BfMachine.Initial | src/bin/brainfuck.rs:52-55 | the loop starts on the zeroed tape with the data pointer and instruction pointer at 0, an empty input buffer and nothing written |
| BfMachine.WrappingAdd | src/bin/brainfuck.rs:63-65 | `u8::wrapping_add`: the cell plus the amount, reduced modulo 256 |
| BfMachine.WrappingSub | src/bin/brainfuck.rs:66-68 | `u8::wrapping_sub`: the cell minus the amount, reduced modulo 256 into `[0, 256)`, so 0 - 1 is 255 |
| BfMachine.Emit | src/bin/brainfuck.rs:69-78 | `.` appends the current cell only when `memory.get` finds the pointer on the tape and the byte is ASCII (below 128); otherwise the output is unchanged and nothing panics |
| BfMachine.Jump | src/bin/brainfuck.rs:85-97 | a taken bracket sets the instruction pointer to its partner `bm[ip]` plus the `ip += 1` that follows; with no key for `ip` it is the `unwrap` panic `MissingMatch` |
| BfMachine.Step | src/bin/brainfuck.rs:60-97 | one loop body on the instruction at `ip`: `>` adds the count to the pointer; `<` with the count above the pointer (pointer 0 in the basic interpreter) is `PointerUnderflow`, else subtracts it; `+`/`-` change the cell by the count mod 256 with wrap-around, `PointerOutOfRange` off the tape; `.` is `Emit`; `,` refills an empty buffer with the next line, fails `InputExhausted` when still empty, and removes the byte before indexing the tape (`PointerOutOfRange` off it); `[` on a zero cell and `]` on a non-zero cell `Jump`, both indexing the tape first; any other byte and an untaken bracket only move `ip` on by one |
| BfMachine.Exec | src/bin/brainfuck.rs:59-98 | the `while let` loop with a budget of `fuel` iterations: `Halted(output, tape)` as soon as `ip` is past the last instruction, `Faulted(output so far, fault)` on a panicking iteration, `OutOfFuel` when the budget is spent first |
| BfMachine.Run | src/bin/brainfuck.rs:57-59 | the bracket map is built over the instruction bytes first; unbalanced brackets end the run as `UnbalancedBrackets` (the `unwrap` panic) before any step, otherwise `Exec` runs from `Initial` |
| BfMachine.StepLands | src/bin/brainfuck.rs:85-97 | after a step the instruction pointer is the old one plus one, or, on a bracket, one past the partner from the bracket map |
| BfMachine.ExecNext | src/bin/brainfuck.rs:59-98 | a loop iteration that does not panic continues the run from the new state with one step less |
| BfMachine.ExecHalted | src/bin/brainfuck.rs:59 | the loop stops exactly when the instruction pointer is past the last instruction, with the output and tape as they are |
| BfMachine.ExecFail | src/bin/brainfuck.rs:60-96 | a panicking iteration ends the run with the output written so far and that fault |
| BfMachine.ExecMonotone | src/bin/brainfuck.rs:186-229 | a run that finished within `n` steps ends the same way with any larger budget |
| BfBrackets.ScanFrom | src/bin/brainfuck.rs:21-42 | the pass from position `i` with the given stack and map: `[` pushes its index, `]` pops the top index and records the pair both ways, `]` on an empty stack is the error, and at the end an empty stack gives the map and a non-empty one the error |
| BfBrackets.Scan | src/bin/brainfuck.rs:17-43 | the pass from position 0 with an empty stack and an empty map |
| BfBrackets.ScanInvOpen | src/bin/brainfuck.rs:23-25 | pushing the index of a `[` keeps the scan invariant: sorted stack of open `[` positions, map a nested symmetric matching of the brackets read so far, stack height = bracket depth |
| BfBrackets.ScanInvClose | src/bin/brainfuck.rs:26-29 | popping the top open index at a `]` and inserting the pair both ways keeps the scan invariant |
| BfBrackets.UnmatchedClose | src/bin/brainfuck.rs:30-31 | a `]` met with an empty stack means the brackets are unbalanced, so the error is right |
| BfBrackets.ScanEnd | src/bin/brainfuck.rs:38-42 | at the end the stack is empty exactly when the brackets balance, and then the map is a perfect matching |
| BfBrackets.ScanFromCorrect | src/bin/brainfuck.rs:21-42 | from any state satisfying the invariant, the rest of the pass succeeds exactly for balanced input, with a perfect matching |
| BfBrackets.ScanCorrect | src/bin/brainfuck.rs:17-43 | building the map fails exactly when brackets are unbalanced; on success its keys are exactly the bracket positions, it is symmetric, every `[` maps to a later `]` and every `]` to an earlier `[`, and pairs nest |
| BfBrackets.GenerateBracketMap | src/bin/brainfuck.rs:17-43 | the loop over raw bytes with a stack and a map returns the scan specification's result: `Ok` iff balanced, and then a perfect matching |
| BfBrackets.GenerateCompressedBracketMap | src/bin/brainfuck.rs:141-169 | the same loop over compressed runs returns the scan of their instruction bytes: `Ok` iff balanced, and then a perfect matching indexed by run |
| BfCompress.Push | src/bin/brainfuck.rs:124-132 | one instruction byte read: the current run grows by one (`instruction_count += 1`) when it holds the same mergeable instruction, otherwise the byte opens a new run of count 1 |
| BfCompress.Compress | src/bin/brainfuck.rs:108-139 | the program read left to right, comment bytes skipped and every instruction byte pushed; the run still open at the end is included |
| BfCompress.PushExpand | src/bin/brainfuck.rs:124-132 | extending the last run or opening a new one adds exactly one copy of the byte to the expansion |
| BfCompress.PushCanonical | src/bin/brainfuck.rs:124-132 | pushing an instruction byte keeps the runs canonical |
| BfCompress.ExpandCompress | src/bin/brainfuck.rs:108-139 | expanding every `(instr, count)` into `count` copies gives back exactly the program with comment bytes removed |
| BfCompress.CompressCanonical | src/bin/brainfuck.rs:120-136 | every count is at least 1, only `>` `<` `+` `-` have counts above 1, and no two adjacent runs carry the same mergeable instruction |
| BfCompress.CompressEmpty | src/bin/brainfuck.rs:110-119 | the compressed program is empty exactly when the program has no instruction byte |
| BfCompress.CanonicalUnique | src/bin/brainfuck.rs:108-139 | any canonical run sequence expanding to the comment-free program is the compressed program, so compression is the unique canonical form |
| BfCompress.CompressFilter | src/bin/brainfuck.rs:122-123 | compression depends only on the instruction bytes: comments between two equal instructions do not prevent merging |
| BfCompress.CompressSnoc | src/bin/brainfuck.rs:122-133 | reading one more instruction byte pushes it onto the runs built so far |
| BfCompress.CanonicalUniqueAux | src/bin/brainfuck.rs:120-136 | a canonical run sequence is the compression of its own expansion |
| BfCompress.CompressProgram | src/bin/brainfuck.rs:108-139 | the loop with `current_instruction` and `instruction_count` returns the compressed program: canonical, expanding to the comment-free program, empty iff there is no instruction |
| BfInterpreters.BasicOutcome | src/bin/brainfuck.rs:45-59 | `basic::run`: an empty program ends at once with no output and the zeroed tape; otherwise `Run` on the raw bytes, one instruction of count 1 per byte |
| BfInterpreters.OptimizedOutcome | src/bin/brainfuck.rs:171-187 | `optimized::run`: an empty program ends at once with no output and the zeroed tape; otherwise `Run` on the compressed program |
| BfInterpreters.BasicRun | src/bin/brainfuck.rs:45-99 | `basic::run` returns at once for an empty program; otherwise it builds the bracket map, reports unbalanced brackets, or runs the tape machine on the raw bytes |
| BfInterpreters.BasicLoop | src/bin/brainfuck.rs:52-98 | the `while` loop over the in-place tape array ends exactly as the tape machine does on the raw bytes from the zeroed tape |
| BfInterpreters.BasicIteration | src/bin/brainfuck.rs:60-97 | one loop body updates the tape array, pointers, input buffer and output exactly as a machine step does, or reports that step's panic |
| BfInterpreters.OptimizedRun | src/bin/brainfuck.rs:171-230 | `optimized::run` returns at once for an empty program; otherwise it compresses, builds the map over runs, and runs the machine on the runs |
| BfInterpreters.OptimizedLoop | src/bin/brainfuck.rs:177-229 | the `while` loop over runs ends exactly as the tape machine does on the compressed program |
| BfInterpreters.OptimizedIteration | src/bin/brainfuck.rs:189-228 | one loop body moves the pointer by the whole count, or changes the cell by `count mod 256` with wrap-around, exactly as a machine step does |
| BfEquivalence.ScanRemove | src/bin/brainfuck.rs:141-169 | deleting a non-bracket byte leaves map construction succeeding or failing alike; every pair survives, shifted past the deleted position |
| BfEquivalence.StepCorr | src/bin/brainfuck.rs:186-229 | an instruction away from an edit takes the same step in the edited program, jumps included |
| BfEquivalence.MergedStep | src/bin/brainfuck.rs:190-198 | two adjacent runs of one mergeable instruction with counts `a`, `b` act as one run of `a + b`: same pointer move, same underflow, same cell change |
| BfEquivalence.WrappingAddCompose | src/bin/brainfuck.rs:192-195 | adding `a mod 256` then `b mod 256` with wrap-around adds `(a + b) mod 256` |
| BfEquivalence.WrappingSubCompose | src/bin/brainfuck.rs:196-199 | subtracting `a mod 256` then `b mod 256` with wrap-around subtracts `(a + b) mod 256` |
| BfEquivalence.DropForward | src/bin/brainfuck.rs:59-98 | without a comment byte the program finishes the same way within the same number of steps |
| BfEquivalence.DropBackward | src/bin/brainfuck.rs:59-98 | whatever the comment-free program finishes in `n` steps, the original finishes identically within `2n + 1` |
| BfEquivalence.MergeForward | src/bin/brainfuck.rs:186-229 | with two adjacent equal mergeable runs merged, the program finishes the same way within the same number of steps |
| BfEquivalence.MergeBackward | src/bin/brainfuck.rs:186-229 | whatever the merged program finishes in `n` steps, the unmerged one finishes identically within `2n` |
| BfEquivalence.DropPreserves | src/bin/brainfuck.rs:95 | dropping a comment byte changes neither the bracket outcome nor how any run ends |
| BfEquivalence.MergePreserves | src/bin/brainfuck.rs:124-128 | merging two adjacent runs of the same mergeable instruction changes neither the bracket outcome nor how any run ends |
| BfEquivalence.PushPreserves | src/bin/brainfuck.rs:122-133 | one compressor step (skip a comment, extend a run, or open a run) preserves behaviour |
| BfEquivalence.CompressPreserves | src/bin/brainfuck.rs:108-139 | the raw program, one run per byte, and its compression behave alike in both directions |
| BfEquivalence.OptimizedMatchesBasic | src/bin/brainfuck.rs:171-230 | whenever `basic::run` finishes within `n` steps, `optimized::run` finishes identically within `n`, and whatever `optimized::run` finishes, `basic::run` finishes identically given enough steps; this covers output, final tape, panics and the bracket error |
| BfProperties.StepOutput | src/bin/brainfuck.rs:69-78 | a step keeps what was written and appends at most one byte, always below 128 |
| BfProperties.ExecOutput | src/bin/brainfuck.rs:200-209 | a run only appends bytes below 128 to the output it started with |
| BfProperties.OutputIsAscii | src/bin/brainfuck.rs:69-78 | both interpreters write only ASCII bytes, whether they halt or panic |
| BfProperties.InputInOrder | src/bin/brainfuck.rs:79-84 | `,` stores the next pending input byte (the rest of the buffered line, then the lines to come) in the current cell and consumes exactly that byte, leaving the pointer and output alone; it panics for want of input iff the buffer is empty and there is no next line or the next line is empty |
| BfProperties.OpenJumpsPastPartner | src/bin/brainfuck.rs:85-89 | with a perfect matching, `[` has a later `]` partner; on a zero cell execution continues just past it, otherwise at the next instruction |
| BfProperties.CloseJumpsPastPartner | src/bin/brainfuck.rs:90-94 | with a perfect matching, `]` has an earlier `[` partner; on a non-zero cell execution continues just past it, otherwise at the next instruction |
| BfProperties.StepNoMissingMatch | src/bin/brainfuck.rs:87 | with a perfect matching no step fails on a missing bracket-map key |
| BfProperties.ExecNoMissingMatch | src/bin/brainfuck.rs:216-225 | with a perfect matching no run ends on a missing bracket-map key |
| BfProperties.NeverMissingMatch | src/bin/brainfuck.rs:218 | the `unwrap` on a bracket-map lookup never panics in either interpreter |
| BfProperties.IncrementsWrap | src/bin/brainfuck.rs:192-195 | the optimized `+` with count `n` (adding `n mod 256`) equals `n` basic wrapping increments |
| BfProperties.DecrementsWrap | src/bin/brainfuck.rs:196-199 | the optimized `-` with count `n` (subtracting `n mod 256`) equals `n` basic wrapping decrements |
| BfProperties.ScanNoBrackets | src/bin/brainfuck.rs:34 | a scan over bytes without brackets succeeds with the map unchanged |
| BfProperties.ExecComments | src/bin/brainfuck.rs:95-97 | comment bytes only move the instruction pointer on, so a run over comments halts with state unchanged |
| BfProperties.CommentOnlyHalts | src/bin/brainfuck.rs:46-48 | a program without instruction bytes, the empty one included, halts with no output and a zeroed tape: the optimized one at once, the basic one after stepping over each byte |
| Cards.RankIndex | src/bin/cards/card.rs:7-21 | a rank's declaration position is below `RANKS` = 13 |
| Cards.SuitIndex | src/bin/cards/card.rs:64-69 | a suit's declaration position is below `SUITS` = 4 |
| Cards.AllRanks | src/bin/cards/card.rs:24-40 | `Rank::all` has `RANKS` = 13 entries, entry `i` is the rank declared `i`-th, and every rank occurs |
| Cards.AllSuits | src/bin/cards/card.rs:72-79 | `Suit::all` has `SUITS` = 4 entries, Spades, Hearts, Diamonds, Clubs in order, and every suit occurs |
| Cards.AllRanksDistinct | src/bin/cards/card.rs:24-40 | `Rank::all` has no repeated rank |
| Cards.AllSuitsDistinct | src/bin/cards/card.rs:72-79 | `Suit::all` has no repeated suit |
| Cards.RankString | src/bin/cards/card.rs:43-61 | a rank renders as one character, except Ten, which renders as two |
| Cards.SuitString | src/bin/cards/card.rs:82-91 | a suit renders as one symbol |
| Cards.RankStringInjective | src/bin/cards/card.rs:45-59 | distinct ranks render differently |
| Cards.SuitStringInjective | src/bin/cards/card.rs:84-89 | the four suits render to four distinct symbols |
| Cards.CardString | src/bin/cards/card.rs:105-108 | a card renders as its rank text immediately followed by its suit symbol |
| Cards.CardStringShape | src/bin/cards/card.rs:105-108 | the suit symbol is the last character of a card's text; no other character of it is a suit symbol, comma or space |
| Cards.CardStringInjective | src/bin/cards/card.rs:105-108 | distinct cards render differently |
| Cards.CardsString | src/bin/cards/deck.rs:42-50 | the list rendering is `[`, the card texts joined by `", "`, then `]` |
| Cards.JoinCards | src/bin/cards/deck.rs:44-47 | the card texts joined with `", "`: nothing for no cards, no separator before the first card or after the last |
| Cards.JoinCardsInjective | src/bin/cards/deck.rs:44-47 | the `", "`-joined card texts determine the list of cards |
| Cards.CardsStringInjective | src/bin/cards/deck.rs:42-50 | two card lists that render the same are equal |
| Decks.FullCard | src/bin/cards/deck.rs:23 | `Deck::full` puts at index `i` the card with `4 * rank + suit == i`, that is `(ranks[i / 4], suits[i % 4])` |
| Decks.FullCards | src/bin/cards/deck.rs:19-25 | the full deck has 52 cards, card `i` built from index `i` |
| Decks.FullCardsPositions | src/bin/cards/deck.rs:23 | every (rank, suit) pair sits in the full deck at `4 * rank + suit`, and at no other index |
| Decks.FullCardsExactlyOnce | src/bin/cards/deck.rs:19-25 | the full deck has no repeated card and holds every (rank, suit) pair exactly once |
| Decks.Swap | src/bin/cards/deck.rs:30 | `cards.swap(i, j)` exchanges the two cards and leaves every other position alone |
| Decks.SwapPermutes | src/bin/cards/deck.rs:30 | a swap keeps the multiset of cards |
| Decks.Rounds | src/bin/cards/deck.rs:27-32 | the last `n` iterations of the shuffle loop: the iteration for index `n - 1` advances the generator, swaps that index with the new state mod `n` (`gen_range(0, n)`), and the remaining iterations continue from the new state |
| Decks.Shuffled | src/bin/cards/deck.rs:27-32 | the whole loop, from index 51 down to 0, on the deck's cards from the generator's current state |
| Decks.RoundsPermute | src/bin/cards/deck.rs:27-32 | any number of shuffle rounds keeps the multiset of cards |
| Decks.RoundsKeepAbove | src/bin/cards/deck.rs:28-30 | positions above the index a round fills are never touched again |
| Decks.RoundFillsIndex | src/bin/cards/deck.rs:29-30 | the round for index `i` draws its partner in `[0, i]` and settles index `i` with the card found there |
| Decks.ShuffledPermutes | src/bin/cards/deck.rs:27-32 | a shuffled deck is a permutation of the old one; a shuffled full deck still holds every card exactly once |
| Decks.Deck.constructor | src/bin/cards/deck.rs:15-17 | `Deck::new` holds exactly the given 52 cards, with a generator in the given seed state |
| Decks.Deck.Full | src/bin/cards/deck.rs:19-25 | `Deck::full` is a fresh deck whose cards are the full deck in rank-major order |
| Decks.Deck.Shuffle | src/bin/cards/deck.rs:27-32 | the in-place loop from index 51 down to 0 leaves the shuffle specification's card order, built from the generator's draws, and advances the generator exactly 52 times |
| Decks.Deck.SwapCards | src/bin/cards/deck.rs:30 | swapping two array entries in place gives `Swap` of the old contents |
| Decks.Deck.Peek | src/bin/cards/deck.rs:34-39 | `peek(n)` is an error with the source's exact message iff `n >= 52`, 52 included; otherwise it returns the first `n` cards in order, reading without changing the deck |
| Decks.Deck.ToString | src/bin/cards/deck.rs:42-50 | a deck renders as `[`, its 52 card texts joined by `", "`, then `]` |
| Decks.DeckStringDetermines | src/bin/cards/deck.rs:42-50 | two decks that render the same hold the same cards in the same order |
| Hands.FromDeck | src/bin/cards/hand.rs:18-20 | `Hand::from_deck` never fails (`peek(5)` is within bounds) and holds the deck's first 5 cards in order |
| Hands.HandString | src/bin/cards/hand.rs:23-31 | a hand renders as `[`, its 5 card texts joined by `", "`, then `]` |
| Hands.HandStringDetermines | src/bin/cards/hand.rs:23-31 | two hands that render the same are equal |
| Hands.FullDeckHand | src/bin/cards/hand.rs:18-20 | a hand dealt from a full deck is A♠ A♥ A♦ A♣ 2♠ |
| XorShiftRng.Advance | src/bin/cards/xorshift.rs:23-27 | the new state of `next`: `x ^= x << 13`, then `x ^= x >> 17`, then `x ^= x << 5` on the 64-bit word, bits shifted out discarded |
| XorShiftRng.AdvanceN | src/bin/cards/xorshift.rs:22-29 | the state after `n` calls of `next` |
| XorShiftRng.XorShl13Zero | src/bin/cards/xorshift.rs:24 | `x ^= x << 13` sends only zero to zero |
| XorShiftRng.XorShr17Zero | src/bin/cards/xorshift.rs:25 | `x ^= x >> 17` sends only zero to zero |
| XorShiftRng.XorShl5Zero | src/bin/cards/xorshift.rs:26 | `x ^= x << 5` sends only zero to zero |
| XorShiftRng.ZeroOnlyFromZero | src/bin/cards/xorshift.rs:22-29 | state 0 is a fixed point of `next`, and the only state `next` sends to 0 |
| XorShiftRng.AdvanceNNonZero | src/bin/cards/xorshift.rs:22-29 | a generator seeded non-zero never reaches state 0, however often it is advanced |
| XorShiftRng.Below | src/bin/cards/xorshift.rs:32 | the word reduced modulo `m` lies below `m` |
| XorShiftRng.ReduceIsMod | src/bin/cards/xorshift.rs:32 | reduction by repeated subtraction is the remainder `%` |
| XorShiftRng.XorShift.FromSeed | src/bin/cards/xorshift.rs:9-11 | `from_seed(s)` has state exactly `s` |
| XorShiftRng.XorShift.Next | src/bin/cards/xorshift.rs:22-29 | `next` applies the three shift-xors on the 64-bit word, discarding shifted-out bits, stores the new state and returns it |
| XorShiftRng.XorShift.GenRange | src/bin/cards/xorshift.rs:31-33 | for `a < b`, `gen_range(a, b)` advances the state exactly once and returns `a + next() % (b - a)`, which lies in `[a, b)` |

## Left out

- Command-line handling, file reading and timing in `main` (src/bin/brainfuck.rs:234-246) are I/O and are not modelled.
- The `BufWriter` and its flushing are not modelled: output is the returned byte sequence.
- Standard input is the given sequence of lines. An empty line stands for `read_until` at end of input.
- BfInterpreters.BasicRun: a program that never halts is not modelled as running forever. Both runs take a step budget `fuel` and end in `OutOfFuel` when it is spent.
- BfInterpreters.OptimizedRun: the same step budget bounds the optimized run.
- Panics are explicit fault outcomes, not process aborts:
  - `<` below cell 0 is `PointerUnderflow`, as in a debug build's `usize` overflow check. A release build wraps the pointer instead, and panics only if a later instruction other than `.` indexes the tape before `>` brings the pointer back. The model and BfEquivalence.OptimizedMatchesBasic follow the debug build;
  - indexing the tape past 2^15 is `PointerOutOfRange`;
  - `,` with no input left is `InputExhausted`.
- `>` is not bounded: `usize` overflow of the data pointer would need about 2^64 steps and is not modelled.
- `.` with the pointer off the tape writes nothing, as `memory.get` does.
- Cards.SuitString: rendered text is a sequence of Unicode characters, not the UTF-8 bytes Rust writes. Each suit symbol is one character here and three bytes in Rust. Equality and injectivity of texts are unaffected.
- The `unwrap` on the bracket map is the outcome `UnbalancedBrackets`, reported before any step; the map's error text is not kept.
- Hash-map iteration order plays no role and is not modelled. The bracket map is a Dafny `map`.
- BfEquivalence.OptimizedMatchesBasic: the basic interpreter may need more steps than the optimized one. The backward direction gives only the existence of a sufficient budget, which the proof bounds by `2n + 1` per edit.
- XorShift::new seeds from the system clock and is not modelled. `Deck::new` takes the seed as a parameter, as `Decks.Deck.constructor` does.
- `usize` is taken to be 64 bits wide. The generator state is a `bv64`, and `gen_range` bounds are integers below 2^64.
- XorShiftRng.XorShift.GenRange: `gen_range(a, a)` (division by zero) and `gen_range` with `b < a` (subtraction overflow) panic in the source. The model requires `a < b` instead of modelling the panic; every call in the shuffle meets it.
- Decks.Deck.Shuffle: the statistical quality (uniformity) of the shuffle is not modelled. The contract fixes the exact card order as a function of the generator state.
- Hands.FromDeck: the `try_into().unwrap()` to a 5-element array is the subset type `HandCards`. The conversion cannot fail because `peek(5)` returns exactly 5 cards.
- The other binaries of the repository are not part of this model. These are the float, graphics and thread programs, the random-speed benchmark and the poker-probability printer.
