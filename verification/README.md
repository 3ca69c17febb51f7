# sysfs sample driver: a Dafny model

`sysfs/main.c` is a small Linux kernel module. It registers one platform
device with one read/write sysfs attribute, `data`. Its only logic sits in
the attribute's two handlers:

- **show** (read): draws `count` samples from a module-wide counter `last`.
  Each draw (`pseudo_read_device`) stores the counter in `ctx->data` and
  advances it by one. Each sample is written as `"%08x "`. A newline is added
  if the loop ran. `BUG_ON(len > PAGE_SIZE)` guards the page-sized buffer.
- **store** (write): takes the parsed integer `req`. It refuses
  `req > MAX_COUNT` with `-ERANGE` and leaves everything unchanged. Otherwise
  it sets `count := req`, with no lower bound, and reports the whole input as
  consumed.

`MAX_COUNT = PAGE_SIZE / 9 - 1` comes from the 9-character token width.

The model is functional. It has an immutable `State` (the `struct context`
fields `count` and `data`, plus the counter `last`), pure `Store` and
`ShowSpec` functions, and a `Show` method that follows the C loop step by
step. `Show` is proved equal to `ShowSpec`. `PAGE_SIZE` is a parameter of type
`PageSize` (at least 4096).

Files:

- `wrappers.dfy`: `Option`.
- `hex.dfy`: the `%08x` encoder, its decoder, and round trips in both
  directions.
- `device.dfy`: `struct context`, `pseudo_read_device`, probe defaults, and
  repeated draws.
- `attribute.dfy`: `MAX_COUNT`, show and store, the invariant
  `count <= MAX_COUNT`, and the proof that `BUG_ON` cannot fire.
- `session.dfy`: any sequence of reads and writes. It covers what a reader
  decodes from the returned texts, monotonicity, and a concrete walk through.

In two places the code behaves differently from what a first reading
suggests. The model follows the code:

- Every sample is written as `"%08x "`, the last one included. A read is
  therefore `"00000000 \n"` (10 bytes), not `"00000000\n"`. Tokens are
  space-terminated, not space-separated.
- `count` may be negative. Store checks only the upper bound, and a read with
  `count <= 0` returns the empty text. The invariant is `count <= MAX_COUNT`,
  not `0 <= count <= MAX_COUNT`.

The bound is also slightly stronger than the `BUG_ON` needs. At
`count == MAX_COUNT` the length is `9*(PAGE_SIZE/9) - 8`, so even the NUL byte
that the last `sprintf` writes after the text stays inside the page
(`NoBugOn` proves `len < PAGE_SIZE`).

## Model

| member | source | states |
|---|---|---|
| Hex.Hex8 | sysfs/main.c:64 | `%08x` of an `unsigned int` is exactly eight lower-case hex digits |
| Hex.EncodeWidth | sysfs/main.c:64 | zero-padded fixed-width rendering has exactly the width asked for, all hex digits |
| Hex.DecodeHex8 | sysfs/main.c:64 | decoding the eight digits of any `unsigned int` gives the value back |
| Hex.Hex8OfDecode | sysfs/main.c:64 | every eight-digit lower-case token is the `%08x` of its decoded value, so the format is a bijection |
| Hex.DecodeEncodeWidth | sysfs/main.c:64 | fixed-width decoding inverts encoding for values that fit the width |
| Hex.EncodeDecodeWidth | sysfs/main.c:64 | encoding a decoded digit string at its own width reproduces the string |
| Hex.ZeroDigits | sysfs/main.c:64 | the zero flag pads zero to all-zero digits |
| Device.Probe | sysfs/main.c:121-124 | a probed context has count 1 and data 0 (zeroed allocation) and leaves the counter alone |
| Device.PseudoReadDevice | sysfs/main.c:32-39 | a draw always returns 0, sets data to the counter converted to `unsigned int`, advances the counter by one and keeps the count |
| Device.DrawManyConsecutive | sysfs/main.c:34-36 | n draws yield `last, last+1, ..., last+n-1` mod 2^32, leave the counter at `last+n`, data at the last value drawn, and the state unchanged when n = 0 |
| Attribute.MaxCount | sysfs/main.c:19 | `MAX_COUNT` is at least 1 and `9*MAX_COUNT + 1 < PAGE_SIZE` |
| Attribute.Samples | sysfs/main.c:55 | the loop runs `count` times when `count > 0` and never otherwise |
| Attribute.Token | sysfs/main.c:64 | one sample occupies 9 characters: its `%08x` then a space |
| Attribute.RenderTokenAt | sysfs/main.c:64-66 | token k of the accumulated text sits at offset 9k and shows the k-th value |
| Attribute.ParseRender | sysfs/main.c:64-66 | reading the accumulated tokens back recovers the values drawn |
| Attribute.RenderParse | sysfs/main.c:64-66 | any text that reads back as tokens is exactly the rendering of those values |
| Attribute.ParseShowText | sysfs/main.c:55-72 | parsing a whole read text recovers the sample values it was built from |
| Attribute.ShowTextParse | sysfs/main.c:55-72 | any text that parses as a read is the read text for the values it parses to |
| Attribute.SampleLoop | sysfs/main.c:55-67 | the sampling loop, with its never-taken error exit, performs `max(count, 0)` draws and accumulates their tokens, with `len` equal to the text length |
| Attribute.Show | sysfs/main.c:43-79 | the handler as written equals the reference `ShowSpec`. It advances the counter by `max(count,0)` and keeps the count. It returns iff `9n + (n>0 ? 1 : 0) <= PAGE_SIZE`, with that length and the consecutive samples as text |
| Attribute.ShowCounts | sysfs/main.c:55-78 | one read advances the counter by exactly the number of samples, keeps the count, leaves data at the last sample, returns iff its length fits the page, and returns length `9n + (n>0 ? 1 : 0)` |
| Attribute.ShowLayout | sysfs/main.c:55-72 | in a returned read, token k is the `%08x` of counter value `last+k` followed by a space, and the text ends in a single newline |
| Attribute.ShowEmpty | sysfs/main.c:70-72 | a zero or negative count reads as the empty text, with no newline and no state change |
| Attribute.ShowDecodes | sysfs/main.c:64 | decoding every token of a read yields the sampled counter values modulo 2^32 |
| Attribute.NoBugOn | sysfs/main.c:70-76 | while `count <= MAX_COUNT`, `BUG_ON(len > PAGE_SIZE)` cannot fire, and the length is even strictly below the page size |
| Attribute.ShowKeepsValid | sysfs/main.c:54-68 | a read preserves `count <= MAX_COUNT` |
| Attribute.Store | sysfs/main.c:81-104 | `-ERANGE` exactly when `req > MAX_COUNT`, and then nothing changes. Otherwise count becomes `req`, negative values included, the full input length is returned, and data and the counter are untouched |
| Attribute.StoreKeepsValid | sysfs/main.c:92-98 | an accepted write always leaves `count <= MAX_COUNT`, and a refused one keeps it |
| Attribute.StoreIdempotent | sysfs/main.c:97-99 | writing the same count twice equals writing it once |
| Attribute.StoreThenShow | sysfs/main.c:92-103 | after an accepted write of `req`, the next read returns and shows `max(req, 0)` consecutive samples |
| Attribute.LoadedValid | sysfs/main.c:124 | the default count respects `MAX_COUNT` |
| Attribute.FirstRead | sysfs/main.c:124 | the first read after loading is `"00000000 \n"`, length 10, and leaves the counter at 1 |
| Attribute.ShowTextAt | sysfs/main.c:64-71 | in a non-empty read text, token k is the `%08x` of the k-th value and a space, and the character after the last token is the newline |
| Session.RunDecodes | sysfs/main.c:43-104 | from a valid state, no sequence of reads and writes reaches `BUG_ON`. The invariant holds throughout, and all returned texts decode to consecutive counter values with no gap, repeat or reordering |
| Session.SamplesIncrease | sysfs/main.c:34-36 | while the counter stays within 2^32, the decoded samples across all reads strictly increase |
| Session.ReadWhole | sysfs/main.c:55-78 | a read from a valid state with positive count returns, in full: count kept, data at the last sample, counter advanced by count, text of the consecutive samples, length `9*count + 1` |
| Session.WalkTail | sysfs/main.c:92-103 | with count 3 and pages below 9 MB, writing 999999 is refused with `-ERANGE` and changes nothing; writing 0 then makes the next read empty |
| Session.WalkFrom | sysfs/main.c:43-124 | from a fresh probe with the counter at `last`: read, write 3, read, write 999999, write 0, read gives the sample `last`, then the three samples `last+1..last+3`, then `""`, and ends with count 0 and counter `last+4` |

## Left out

- Mutex locking (`mutex_lock`/`mutex_unlock`): the model is sequential. The lock only serialises callers of one device.
- Platform device and driver registration, attribute file creation and rollback, remove, and module init/exit: host-kernel plumbing with no logic of its own. Probe is modelled only for the context it initialises.
- `kstrtoint`: store takes the already-parsed `int`. If parsing fails, `req` stays uninitialised in C; that path has no defined value to model.
- `pr_debug`/`pr_err` logging.
- Signed overflow of the `static int last` counter is undefined behaviour in C. The model keeps the counter as an unbounded natural number, and `data` holds it modulo 2^32 (the `int` to `unsigned int` conversion).
- Session.SamplesIncrease: states monotonicity only while the counter has not passed 2^32. Past that point the 32-bit rendering wraps, and before it the C `int` already overflows.
- The NUL bytes `sprintf` writes after each token are not part of the returned length, so they are not part of the text. `NoBugOn` does prove that the last one fits in the page.
- `PAGE_SIZE` is modelled as any value of at least 4096, because no Linux architecture has pages below 4 KiB. Below 9 bytes the unsigned `PAGE_SIZE / 9 - 1` would wrap, and below 18 bytes `MAX_COUNT` would be 0; neither occurs. Values large enough for the `(int)` cast to overflow do not occur either, so the cast is not modelled.
- Store's return value is the input length as `ssize_t`; the `size_t` to `ssize_t` conversion is not modelled.
- The attribute's mode bits and the data race on `last` across several devices (only one device is ever registered) are not modelled.
