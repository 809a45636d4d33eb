# Secret-santa draw: a verified model of the draft derangement engine

The secret-santa emailer gives each participant ("santa") another participant
to buy a gift for. Nobody may draw themselves. Its only working algorithm is
the draft in `tst.py`, which has two parts:

- `constraint(key_santas, value_santas)` checks that no position holds the
  same santa in both lists.
- `wichtel()` builds the draw in one pass. Each santa, in list order, draws a
  value from `tmp`, the pool of values nobody has drawn yet. A santa that is
  still in the pool takes itself out for its own draw and is appended again
  afterwards. A santa that someone else has already drawn makes
  `tmp.remove(santa)` raise `ValueError`, and then draws in the `except`
  clause. At the end, `constraint(santas, result)` decides whether to print
  "panic".

The model is written in the code's own imperative form. `tmp` and `result`
are local sequence variables that the methods reassign. Python's exceptions
are explicit outcomes: `Option.None` stands for a `ValueError` from
`list.remove` or `random.randint`. `Turn.Stuck` and `Outcome.Raised` stand
for the error that escapes the `except` clause.

The choice made by `random.randint(0, len(tmp) - 1)` is a nondeterministic
choice inside `PyRandom.RandInt`, which may return any in-range value. Every
contract therefore holds for every sequence of random choices. The
hard-coded list `[1, ..., 9]` is generalised to any sequence of pairwise
distinct values of any type. Distinctness matters because `list.remove`
deletes the first equal element.

The single-pass draw can get stuck at its last santa; this model follows the
code.

What is proved:

- `Constraint` returns true exactly when no position holds equal values.
  When it returns false, it stops at the first position that does.
- A santa never draws itself in its own turn. While it draws, it is out of
  the pool (or was never in it).
- Every run ends in one of two ways:
  - **Finished.** The result is a permutation of the santas with no fixed
    point and no repetition. The final `constraint` check passes, so
    "panic" is never printed.
  - **Raised.** The run is at the dead-end: all santas but the last have
    drawn, nobody drew themselves, and the only value left in the pool is
    the last santa. Its own turn empties the pool, `randint(0, -1)` raises
    in the `try` body, and it raises again in the `except` clause, where
    nothing catches it.
- With two santas, the run never reaches the dead-end, and the only possible
  result is the swap. With one santa, the run always reaches it. From three
  santas on, the dead-end is a consistent state.
- Read as a dictionary from santa to santa (the result `shuffle_santas` in
  `main.py` promises, built by the helper `ToAssignment`), a finished result
  is a bijection on the santas with no fixed point. `AssignmentOnto`,
  `AssignmentNoSelf` and `AssignmentInjective` are the contract of that
  reading.

Files: `wrappers.dfy` (Option), `pyrandom.dfy` (`random.randint`),
`pylist.dfy` (`list.remove` and distinctness), `tst.dfy` (the engine).

## Model

| member | source | states |
|---|---|---|
| PyRandom.RandInt | tst.py:33 | `randint(a, b)` raises exactly when `b < a`; otherwise it returns an integer in `[a, b]`. This is why every successful draw uses an index inside the pool |
| PyList.IndexOf | tst.py:25 | the position found holds `x`, and no earlier position does (first occurrence) |
| PyList.Remove | tst.py:25 | `list.remove(x)` raises exactly when `x` is absent; otherwise it makes the list one element shorter and takes exactly one copy of `x` out of its multiset |
| PyList.RemoveAt | tst.py:36 | on a list without repetitions, `tmp.remove(tmp[r])` deletes exactly position `r` |
| PyList.SingleCount | tst.py:19 | a list of distinct santas holds each value at most once |
| PyList.PermutationOfDistinct | tst.py:42-43 | a rearrangement of distinct santas has no repetitions and holds the same values ("each pool element is drawn at most once, and none is missing") |
| Tst.Constraint | tst.py:13-16 | for equal-length lists, the answer is true iff position `i` never holds equal values; when false, `clash` is the first position with equal values. Empty lists give true |
| Tst.DrawFrom | tst.py:33-36 | the draw raises exactly when the pool is empty; otherwise the pool loses exactly the value drawn, and shrinks by one |
| Tst.TakeTurn | tst.py:24-43 | a turn fails exactly when the pool is empty or holds only the santa itself. Otherwise the pool loses exactly the value drawn, and when the santa occurs at most once in the pool, that value is not the santa |
| Tst.PoolCount | tst.py:20 | while `result` and `tmp` together make up the distinct santas, each santa occurs at most once in `tmp` |
| Tst.Wichtel | tst.py:18-46 | for any list of distinct santas and any random choices, a finished run yields a permutation of the santas with no fixed point and no repetition, and the "panic" check is never true. A run that raises is exactly at the dead-end: `n - 1` draws, none a self-draw, with only the last santa left undrawn |
| Tst.TwoSantasSwap | main.py:78-83 | with two distinct santas, the only assignment in which nobody draws themselves is the swap |
| Tst.NoDeadEndForTwo | tst.py:25-31 | with two distinct santas the dead-end state does not exist, so the run always finishes |
| Tst.WichtelTwo | tst.py:18-46 | every run of the procedure on two distinct santas finishes, without panic, with exactly the swap |
| Tst.WichtelOne | tst.py:18-46 | every run of the procedure on one santa raises before anything is drawn |
| Tst.LoneSantaIsDeadEnd | tst.py:25-33 | one santa has no valid draw, and the empty draw is its dead-end |
| Tst.DeadEndFromThree | tst.py:27-31 | from three distinct santas on, some draws of the first `n - 1` santas leave only the last santa in the pool (the dead-end state is consistent) |
| Tst.LastSantaDrawnEarly | tst.py:23-27 | in every finished result, the last santa was drawn by an earlier santa, so its own turn did not empty the pool |
| Tst.AssignmentValuesAreSantas | main.py:82 | every santa gifted is a santa |
| Tst.AssignmentCoversSantas | main.py:82 | every santa is gifted by someone |
| Tst.AssignmentOnto | main.py:78-83 | the santas gifted are exactly the santas gifting |
| Tst.AssignmentNoSelf | main.py:80 | no santa is mapped to itself |
| Tst.AssignmentInjective | main.py:78-83 | no two santas gift the same santa |

## Left out

- Everything else in `main.py` is not part of this model. That is argument
  parsing, file and JSON loading, the credential prompts and SMTP. Its
  processing functions are empty stubs, so only the doc-comment contract of
  `shuffle_santas` is modelled (the `Assignment*` lemmas).
- The console output (`print("Alarm")`, the state dumps, `print("panic")`,
  `print("step")`), `time.sleep` and the 100-run driver loop at tst.py:48-51.
  They are diagnostics. The "panic" print appears only as the `panicked`
  flag of `Outcome.Finished`.
- How the random choices are distributed (uniformity). The code only calls
  `random.randint`, so each draw is any valid index.
- Tst.Wichtel: requires the santas to be pairwise distinct. The source only runs
  on the distinct list `[1, ..., 9]`, and with repeated values
  `list.remove` would no longer identify one santa.
- Tst.Wichtel: the model proves that every failing run ends at the dead-end, and
  that the dead-end state is consistent from three santas on. It does not
  prove that a particular sequence of random choices reaches it, because the
  choices are nondeterministic.
- Tst.Constraint: requires equal lengths, as its doc-comment (tst.py:7)
  demands. The unequal-length behaviour of the Python loop is not modelled:
  there, extra values are ignored and missing ones raise `IndexError`.
