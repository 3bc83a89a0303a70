# LED blinker, modelled in Dafny

The repository describes one hardware block, `blinker`: a `length`-bit counter
register `cnt` that increases by one on every rising edge of the clock input
`clk_i`, and a combinational output `led_o` wired to the counter's most
significant bit, `cnt[length-1]`. Used this way a binary counter divides the
clock: the LED is a square wave whose period is 2^length clock edges.

The model has two modules.

- `Bits` (`bits.dfy`): unsigned fixed-width arithmetic. `Pow2`, the
  truncation a `length`-bit bus applies to every value assigned to it
  (`Wrap`), and bit selection by index (`Bit`, bit 0 being the least
  significant), with the division and remainder facts the proofs use.
- `LedBlinker` (`blinker.dfy`): the sequential part as the class `Blinker`.
  It has an immutable `length`, a mutable `cnt`, and a ghost count of the
  edges seen so far, `edges`. `RisingEdge()` is the `counter_logic` process,
  and `Run(k)` applies `k` edges in a loop. The combinational part is the
  pure function `Led(cnt, length)` and the read-only `Output()`. The pure
  step `Next` and its iterate `CountAfter` specify the class. Lemmas state
  the counter's closed form and the shape of the LED waveform.

The object invariant `Valid()` says that `length >= 1` and that
`cnt == CountAfter(0, edges, length)`. Every instance therefore satisfies
`cnt == edges mod 2^length` and `0 <= cnt < 2^length`. `RisingEdge` states
both facts in its postcondition.

The source does not check the width itself. A width of 0 leaves no bit
`length-1` to select. The constructor requires `length >= 1`. `Create(length)`
is the fallible entry point: it returns `InvalidConfiguration(length)` for
`length < 1`.

## Model

| member | source | states |
|---|---|---|
| `Bits.Wrap` | 1_TheFastestEasiestFPGABlinkerEver/blinker.py:16 | a value assigned to the `length`-bit bus becomes the unique value below 2^length that is congruent to it modulo 2^length, and a value that already fits is kept |
| `Bits.BitIsShiftAnd` | 1_TheFastestEasiestFPGABlinkerEver/blinker.py:30 | selecting bit `i` of a value is `(v >> i) & 1`, i.e. the parity of `v / 2^i` |
| `Bits.TopBitIsUpperHalf` | 1_TheFastestEasiestFPGABlinkerEver/blinker.py:16-30 | for a value that fits in `n` bits, bit `n-1` is set exactly when the value is at least 2^(n-1) |
| `LedBlinker.Next` | 1_TheFastestEasiestFPGABlinkerEver/blinker.py:22-24 | one edge keeps the counter inside `[0, 2^length - 1]`; it goes to `cnt + 1` below the top and wraps from `2^length - 1` to 0 |
| `LedBlinker.CountAfter` | 1_TheFastestEasiestFPGABlinkerEver/blinker.py:16-24 | after any number of edges the counter is still inside `[0, 2^length - 1]` |
| `LedBlinker.CountAfterClosedForm` | 1_TheFastestEasiestFPGABlinkerEver/blinker.py:18-24 | `k` edges from `start` leave the counter at `(start + k) mod 2^length` |
| `LedBlinker.Led` | 1_TheFastestEasiestFPGABlinkerEver/blinker.py:28-30 | the LED, bit `length-1` of the counter, is on exactly when the counter is in the upper half of its range, `cnt >= 2^(length-1)` |
| `LedBlinker.LedIsShiftAnd` | 1_TheFastestEasiestFPGABlinkerEver/blinker.py:30 | the LED equals `(cnt / 2^(length-1)) mod 2` |
| `LedBlinker.LedAfterPhase` | 1_TheFastestEasiestFPGABlinkerEver/blinker.py:22-30 | after `k` edges from reset the LED is on exactly when `k mod 2^length >= 2^(length-1)` |
| `LedBlinker.LedWaveform` | 1_TheFastestEasiestFPGABlinkerEver/blinker.py:22-30 | within every period of 2^length edges the LED is off for the first 2^(length-1) edges and on for the next 2^(length-1) |
| `LedBlinker.LedPeriod` | 1_TheFastestEasiestFPGABlinkerEver/blinker.py:22-30 | the LED sequence repeats with period 2^length edges |
| `LedBlinker.LedHalfPeriodToggle` | 1_TheFastestEasiestFPGABlinkerEver/blinker.py:22-30 | 2^(length-1) further edges always invert the LED |
| `LedBlinker.LedTogglesEveryEdgeWhenOneBit` | 1_TheFastestEasiestFPGABlinkerEver/blinker.py:24-30 | with `length == 1` the LED toggles on every edge |
| `LedBlinker.ThreeBitSixteenEdges` | 1_TheFastestEasiestFPGABlinkerEver/blinker.py:36-39 | a 3-bit blinker clocked 16 times shows counter values 1..7, 0, 1..7, 0 after the edges, with LED 0,0,0,1,1,1,1,0 twice, and ends back at 0 |
| `LedBlinker.Blinker.constructor` | 1_TheFastestEasiestFPGABlinkerEver/blinker.py:12-16 | a new blinker of width `length >= 1` has its counter at 0 and satisfies the invariant |
| `LedBlinker.Blinker.Create` | 1_TheFastestEasiestFPGABlinkerEver/blinker.py:12-16 | a width below 1 is rejected with `InvalidConfiguration`; any other width gives a fresh, valid blinker at 0 |
| `LedBlinker.Blinker.RisingEdge` | 1_TheFastestEasiestFPGABlinkerEver/blinker.py:22-24 | one edge sets `cnt` to `Next(cnt)`, counts one more edge, keeps the invariant, and leaves `cnt == edges mod 2^length` inside `[0, 2^length - 1]` |
| `LedBlinker.Blinker.Output` | 1_TheFastestEasiestFPGABlinkerEver/blinker.py:28-30 | reading the LED changes nothing; it is on exactly when `cnt >= 2^(length-1)`, which is the LED level after `edges` edges from reset |
| `LedBlinker.Blinker.Run` | 1_TheFastestEasiestFPGABlinkerEver/blinker.py:22-24 | `k` edges in a row advance the counter to `(cnt + k) mod 2^length` and the edge count by `k`, keeping the invariant |

## Left out

- The hardware-description framework is not part of this model: the wildcard import, `initialize()`, the `Wire` declarations and the `@chunk`, `@seq_logic` and `@comb_logic` decorators. Here `@seq_logic(clk_i.posedge)` means only "runs once per rising edge", which is `RisingEdge()`. `@comb_logic` means only "a pure function of the current state", which is `Output()`.
- The truncation of `cnt + 1` is written out as `Wrap` (`% 2^length`). The bus type that performs it inside the framework is not visible.
- The `.next` assignment and the simulator's delta cycles are not modelled. A rising edge updates `cnt` at once, and `Output()` always reflects the current `cnt`, with no lag.
- The clock waveform and the simulation engine (`clk_sim`) are not modelled. Rising edges are discrete `RisingEdge()` calls. The 16-cycle, 3-bit run appears only as the lemma `ThreeBitSixteenEdges`.
- The waveform viewer and the VHDL generator (`toVHDL`, width 22) are external tools with no behaviour to model here. `length` stays a free parameter.
- `Create` is the only path that rejects a width below 1. The source has no such check: with such a width it would fail inside the framework, where the bit index `length-1` does not exist.
