# Resilient operation executor (`executeWithRetry`)

This project models `executeWithRetry` from `src/supabase.ts`, the wrapper the
code-sharing app puts around every call to its Supabase backend. The wrapper
runs a caller-supplied asynchronous operation up to `MAX_RETRIES` = 5 times.
Each attempt races the operation against a timer of `customTimeout` ms (default
`MAX_TIMEOUT` = 10000). The first attempt that fulfils ends the call: its value
is returned and the module-level `connectionAttempts` counter is reset to 0. A
rejected or timed-out attempt becomes the last error. Unless it was the fifth
attempt, it is followed by a backoff sleep of `RETRY_DELAY * 2^(attempt-1)` ms
(`RETRY_DELAY` = 2000). After five failures the call rejects with
`Operation failed after 5 attempts. Last error: <message of the fifth failure>`.

Everything is in one module, `Supabase` (`supabase.dfy`):

- The operation is a function `operation: nat -> Invocation<T>`. It gives the
  behaviour of its n-th invocation: the invocation settles after some number of
  ms with `Fulfilled(v)` or `Rejected(m)`, or it never settles.
- `Race` is `Promise.race` between one invocation and the timer. It produces
  `Ok(v)`, `Err(m)` or `TimedOut`.
  - An invocation that settles without waiting (`after == 0`, an already-settled
    promise) always wins, even against a 0 ms timer. `Promise.race` settles in a
    microtask, and microtasks run before any timer fires.
  - An invocation that waits for a later task wins only if it settles strictly
    before the timer fires. On a tie the timer wins, because it was registered first.
- `TimerDelay` is the browser's conversion of the `setTimeout` delay: the delay is
  taken as a signed 32-bit integer, and a negative value means 0. The delay
  wraps around modulo 2^32. A `customTimeout` whose remainder modulo 2^32 is
  2^31 or more makes the timer fire at once. A larger timeout with a smaller
  remainder fires after that remainder, e.g. 2^32 + 5000 ms fires after 5000 ms.
- `RunFrom`/`Execute` are the specification of a whole call. They give the
  call's result (`Returned(v)` or `Thrown(message)`), the number of invocations
  made and the list of backoff delays slept.
- `Connection` is a class holding `connectionAttempts`. Its method
  `ExecuteWithRetry` is the source's `for` loop, with `lastError`, the early
  return on success and the backoff. It is proved to produce exactly what
  `Execute` specifies. The invocation count and the delay log are ghost
  out-parameters: they record what the loop did, and the source does not return them.
- The omitted `customTimeout` argument is `None` of an `Option<nat>`.

## Model

| member | source | states |
|---|---|---|
| `Supabase.TimerDelay` | src/supabase.ts:43 | the timer fires after the given delay when that delay is at most 2^31 - 1 ms, and never later than 2^31 - 1 ms |
| `Supabase.Race` | src/supabase.ts:42-50 | an attempt times out exactly when the invocation never settles, or has to wait and settles no earlier than the timer fires; otherwise it keeps the invocation's settlement (fulfilled value or rejection message) |
| `Supabase.TimerWrapsAround` | src/supabase.ts:43 | the timer delay depends only on the timeout modulo 2^32, so 2^32 + t ms fires like t ms |
| `Supabase.RaceMonotone` | src/supabase.ts:42-50 | for timeouts up to 2^31 - 1 ms, a longer timeout never turns a settled attempt into a timeout and never changes how an in-time attempt ends |
| `Supabase.OversizedTimeoutFiresAtOnce` | src/supabase.ts:42-50 | with a timeout whose remainder modulo 2^32 is 2^31 or more, an attempt times out unless its invocation has already settled, so the race is not monotone past 2^31 - 1 ms |
| `Supabase.SettledOperationWins` | src/supabase.ts:42-50 | an already-settled invocation never times out, whatever the timeout |
| `Supabase.DefaultTimeout` | src/supabase.ts:27-43 | with no custom timeout, an attempt times out exactly when its invocation has not settled within 10000 ms |
| `Supabase.Schedule` | src/supabase.ts:59-62 | the k delays slept after k failed attempts are, in order, the backoffs of attempts 1..k |
| `Supabase.BackoffDoubles` | src/supabase.ts:59-62 | the first backoff is RETRY_DELAY and each later one is twice the one before |
| `Supabase.ScheduleTotal` | src/supabase.ts:59-62 | the first k backoffs add up to RETRY_DELAY * (2^k - 1) |
| `Supabase.DefaultSchedule` | src/supabase.ts:25-26 | under the default policy the backoffs are 2000, 4000, 8000, 16000 ms, 30000 ms in all |
| `Supabase.ExhaustedMessageText` | src/supabase.ts:68 | the terminal message is "Operation failed after 5 attempts. Last error: " followed by the last error's message |
| `Supabase.ExhaustedMessageInjective` | src/supabase.ts:68 | the terminal message determines the last error's message |
| `Supabase.RunFrom` | src/supabase.ts:39-65 | from a given attempt on: at most MAX_RETRIES attempts; every attempt before the last one made failed; a success returns the value of the attempt that fulfilled; a rejection happens only after attempt 5 failed and carries attempt 5's message; one backoff per failed attempt except the fifth, each equal to that attempt's backoff |
| `Supabase.Execute` | src/supabase.ts:33-69 | a call invokes the operation between 1 and 5 times, sleeps exactly the backoffs of the attempts before the last one (attempts - 1 delays), and rejects only after 5 attempts |
| `Supabase.SucceedsAfterFailures` | src/supabase.ts:39-54 | if attempts 1..k fail and attempt k+1 fulfils (k < 5), the call returns that value after exactly k+1 invocations and the first k backoffs |
| `Supabase.ExhaustsAfterAllFail` | src/supabase.ts:55-68 | if all 5 attempts fail, the call makes 5 invocations, sleeps 2000, 4000, 8000, 16000 ms (30000 in all) and rejects with the terminal message built from the fifth failure's message |
| `Supabase.SettledOperationBeatsZeroTimeout` | src/supabase.ts:42-54 | an operation that has already fulfilled is returned after one attempt and no delay, even with `customTimeout` 0 |
| `Supabase.OversizedTimeoutExhausts` | src/supabase.ts:42-68 | with a `customTimeout` whose remainder modulo 2^32 is 2^31 or more, an operation that always has to wait exhausts all 5 attempts and rejects with "Operation timed out" as the last error |
| `Supabase.TimeoutIsRejection` | src/supabase.ts:42-56 | two runs behave identically when their attempts agree after reading each timeout as a rejection with message "Operation timed out" |
| `Supabase.Connection.constructor` | src/supabase.ts:24 | the counter starts at 0 |
| `Supabase.Connection.ExecuteWithRetry` | src/supabase.ts:33-69 | the loop's result, invocation count and delay log are those of `Execute`; the counter becomes 0 on success and is untouched on failure, so it is 0 forever |

## Left out

- The Supabase client configuration (src/supabase.ts:5-21): a foreign library call with no logic of its own.
- Real timers, `setTimeout` and `delay`: time is a number of ms per invocation, and a backoff sleep is an entry in the delay log. The call's wall-clock duration is not modelled.
- The in-flight operation after a timeout: it is not cancelled in the source and its late settlement is ignored. The model never looks at it again.
- `console.warn` on each failed attempt (src/supabase.ts:57): logging only.
- Rejections with `null` or `undefined`: the model takes a rejection to carry a string message. In the source, `error.message` at src/supabase.ts:57 has no `?.`, so such a rejection raises a TypeError inside the `catch`. The call then rejects at once with that TypeError: there is no retry, no backoff and no terminal message. This path is not modelled.
- Rejections with values that have no `message` property, such as strings and numbers: these reach src/supabase.ts:68, and the terminal message ends in "undefined". The model covers this only if the caller writes such a rejection as `Rejected("undefined")`. A plain object with a string `message` field, like the Supabase error objects thrown at src/main.ts:77 and src/main.ts:105, behaves like an `Error` and is `Rejected(message)`.
- `customTimeout` values that are negative or not integers: the timeout is a natural number of ms.
- `TimerDelay` follows the browser's 32-bit conversion of the delay: the delay wraps modulo 2^32, and a remainder of 2^31 or more becomes 0 ms. Node.js uses 1 ms instead for every delay above 2^31 - 1 ms, with no wrap-around, and also turns a 0 ms delay into 1 ms. Node.js timers are not modelled.
- `RaceMonotone` holds only for timeouts up to 2^31 - 1 ms. Past that bound the delay wraps around. A timeout whose remainder modulo 2^32 is 2^31 or more fires at once, which `OversizedTimeoutFiresAtOnce` states. Larger timeouts with a smaller remainder fire after that remainder, which `TimerWrapsAround` states.
- The tie rule in `Race`, where the timer wins against an invocation that settles at the same positive time, holds when the operation waits on a timer of its own. When the operation waits on network I/O, the order of two tasks due at the same millisecond is not specified, and the model does not capture that.
- Concurrency between independent calls. They share only `connectionAttempts`, which is only ever set to 0.
- `src/main.ts`: the Angular component, the Monaco editor, the Supabase insert/select operations passed to the executor, URL parsing, clipboard, `alert` and the editor-readiness polling are UI and foreign-library code. They are not part of this model.
