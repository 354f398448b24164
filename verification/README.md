# Verified model of an FPGA RSA system and its runtime

The system is an RSA cipher built twice on one board: as a C program on a soft
processor, and as a set of clocked state machines beside it. The processor runs
on a hardware abstraction layer whose drivers are part of the system.

| file | models |
|---|---|
| `NumberTheory.dfy` | the number theory the cipher rests on: Bezout, Euclid's lemma, recombination, inverses, the binomial theorem, Fermat |
| `Rsa.dfy` | the C program: primality and exponent checks, key search, encryption, decryption, in 32-bit integers (textbook RSA, sections 5.1.1 and 5.1.2 of RFC 8017) |
| `SequentialArithmetic.dfy`, `ModularMultiplier.dfy` | the adder, the subtractor and the multiplication circuit, edge by edge |
| `KeyGenerator.dfy` | the eleven-state hardware key search |
| `ModularExponentiation.dfy`, `HardwareRsa.dfy` | the exponentiation circuit, the encryption/decryption circuit, and the three circuits together |
| `JtagUart.dfy` | the two circular buffers of the JTAG UART driver, shared without locks with an interrupt routine |
| `FdTable.dfy` | the file-descriptor table: open, close, locking, `fcntl`, boot redirection |
| `Alarms.dfy` | alarms on a wrapping tick counter, in a circular doubly linked list walked while entries leave it |
| `Numerals.dfy`, `LogPrintf.dfy`, `AltPrintf.dfy` | integer formatting |
| `TimeOfDay.dfy` | setting and getting the wall clock |

`dafny verify dfyconfig.toml` checks everything.

## How the model is built

- **C integers** are 32 bits wide. Signed products must fit (the methods of
  `Rsa` keep every intermediate value in an `int32`); unsigned arithmetic is
  written out modulo 2^32. `CRem` is the truncating C remainder.
- **Circuits** are step functions over register records. Every register samples
  the values before the edge. `KeyGenerator.GenerateD` is the circuit in place;
  its methods are proved against the step function. Operands (`e`, `phi`, `M`,
  `n`) are inputs that a run needs held; nothing else is assumed about them.
  The multiplier is the real one, not an assumed contract.
- **Interrupts** are a script. Before each foreground statement, and between
  any two bytes of a copy, one batch of interrupts is taken from it and run.
  When the script is used up, the call is cut at that statement, and only then,
  so a contract that holds for every script holds at every point of every
  interleaving. Contracts also bound the batches a call may take without having
  to wait, so a driver that idles does not meet them.
  Device registers answer as the script says; a data register that holds no
  valid byte announces no further ones. The buffer length is any L >= 2.
- **Alarm callbacks** return any sequence of intervals. Their ticks are
  recorded and compared with a schedule on an unbounded clock.
- **Driver callbacks** of the descriptor table contribute an arbitrary result.

## What the code does not do

The proofs settle several points where the code and what it is for part ways.
Each is modelled as the code has it, with the exact condition.

- Nothing compares p with q, and e = 1 passes the exponent check although the
  search then leaves the key 0. All messages come back if and only if p differs
  from q and e is not 1 (`Rsa.ProgramRoundTripIff`).
- The exponent check does not ask for coprimality. The search stops if and only
  if it holds (`Rsa.SearchStopsIff`); e = 3, phi = 12 is accepted and never stops.
- The counter of the key generator survives a run: a second run on the same key
  returns the key plus phi (`KeyGenerator.SecondRunAddsPhi`). A run yields the
  least inverse if and only if the counter started at or below it
  (`KeyGenerator.RunFindsLeastInverseIff`), and the key of the C search if and
  only if moreover e is not 1, where C leaves 0
  (`KeyGenerator.RunAgreesWithSoftwareIff`).
- The adder yields 0 for the second operand 2^32-1; its product is right if and
  only if that operand is another or the first is 0
  (`SequentialArithmetic.ProductIsExactIff`).
- The exponentiation counter and the done flags are lowered by the reset only. A
  second encryption without a reset ends at once with the first ciphertext
  (`HardwareRsa.SecondEncryptionIsStale`). Under the same key it is right if and
  only if the message is the same (`HardwareRsa.SecondCiphertextIsRightIff`).
  Until a third start only the first ciphertext or its remainder by the new
  modulus is out (`HardwareRsa.AfterSecondEncryption`), and with compute held
  that remainder in the end (`HardwareRsa.SecondEncryptionSettles`).
- The lock scan stops one descriptor short of the high-water mark. The comment
  in `alt_fd_lock.c` says a lock is granted when no other descriptor is open on
  the device; the code grants it more often (`FdTable.GrantMeansSoleUserIff`).
  At most one holder per device is still guaranteed.
- `fcntl` accepts a closed descriptor, so free slots can carry flags, and a
  failed open then clears them (`FdTable.FailedOpenRestoresIff`).
- An alarm started with nticks = 2^32-1 fires on the next tick unless the
  counter stands at 2^32-1 (`Alarms.StartFiresExactlyIff`).
- Setting the clock multiplies in 32 bits, reading it in 64; when that does no
  harm is in `TimeOfDay.SetThenGetIff`.

## Preconditions that are the caller's

- `Rsa.SoftwareEncrypt` needs p and q of at least 2 and e of at least 1, because
  the primality check lets every smaller number through; (p*q-1)^2 within the
  int range; an e other than 1 not to divide phi, without which the search does
  not stop; and messages below p*q.
- A run of a circuit needs a nonzero denominator (`SequentialArithmetic.CaughtIff`)
  and operands held until done.
- A foreground call of the UART driver is the only one of its kind (the
  semaphores of the source are empty in this build).
- Descriptor numbers lie below the size of the table, and `close` and `ioctl`
  are called on open descriptors: the source dereferences without a check.
- An alarm in the list is not started again, and an alarm that is stopped is
  listed or was initialised: the source rewrites its links unconditionally.

## Model

| member | source | states |
|---|---|---|
| `Rsa.PrimeChecker` | final_project_finished/software/rsa/rsa_intonly.c:375-382 | answers 1 exactly for the primes and for every number below 2, over all 32-bit arguments |
| `Rsa.EChecker` | final_project_finished/software/rsa/rsa_intonly.c:383-395 | accepts exactly the exponents below phi that pass the primality check; coprimality with phi is not among its conditions |
| `Rsa.CRemTruncates` | final_project_finished/software/rsa/rsa_intonly.c:331-337 | the remainder of the model is C's: smaller than the divisor, with the sign of the dividend, and no other number is |
| `Rsa.SearchStopsIff` | final_project_finished/software/rsa/rsa_intonly.c:331-337 | the private-key loop ever stops if and only if phi >= 2, e >= 1 and e is coprime to phi; otherwise no value of d meets the exit test |
| `Rsa.StopIsLeastInverse` | final_project_finished/software/rsa/rsa_intonly.c:331-337 | when the loop stops at `k`, the key left after the final decrement is `k`: it is 0 exactly for e = 1 modulo phi, and otherwise the least positive inverse of e |
| `Rsa.AcceptedSearch` | final_project_finished/software/rsa/rsa_intonly.c:331-337 | for a prime e < phi: the loop stops iff e does not divide phi, and then leaves the least inverse |
| `Rsa.AcceptedExponentWithoutKey` | final_project_finished/software/rsa/rsa_intonly.c:326-337 | a concrete accepted exponent (e = 3, phi = 12) on which the loop never stops |
| `Rsa.KeySearch` | final_project_finished/software/rsa/rsa_intonly.c:331-337 | the loop itself on 32-bit integers: terminates, no product leaves the int range, and yields the least inverse (0 for e = 1) |
| `Rsa.PowerStep` | final_project_finished/software/rsa/rsa_intonly.c:356-369 | one multiplication stays in the int range and its C remainder is that of the next power, negative operands included |
| `Rsa.Encrypt` | final_project_finished/software/rsa/rsa_intonly.c:353-362 | the loop computes the C remainder of M^e modulo n without overflow whenever (abs(n) - 1) * abs(M) fits an int; a non-positive e means zero factors |
| `Rsa.Decrypt` | final_project_finished/software/rsa/rsa_intonly.c:363-373 | the same for C^d |
| `Rsa.RoundTrip` | final_project_finished/software/rsa/rsa_intonly.c:353-373 | for distinct primes and any e, d inverse to each other modulo (p-1)(q-1), every 0 <= m < p*q comes back, multiples of p and of q included |
| `Rsa.EqualPrimesLoseMessage` | final_project_finished/software/rsa/rsa_intonly.c:301-321 | with p = q the message m = p is never recovered, unless both exponents are 1 |
| `Rsa.RoundTripIff` | final_project_finished/software/rsa/rsa_intonly.c:353-373 | for exponents e, d inverse to each other, all messages below p*q come back if and only if the two primes differ or both exponents are 1 |
| `Rsa.ProgramRoundTripIff` | final_project_finished/software/rsa/rsa_intonly.c:301-373 | with the key the search leaves, all messages come back if and only if the primes differ and e is not 1; neither is checked by the program |
| `Rsa.EncryptionIsPermutation` | final_project_finished/software/rsa/rsa_intonly.c:353-373 | no two messages share a ciphertext, and encrypting a decryption also gives the ciphertext back |
| `Rsa.PipelineFits` | final_project_finished/software/rsa/rsa_intonly.c:321-373 | (n-1)^2 <= 2^31-1 bounds every product of a session, key search included |
| `Rsa.SoftwareEncrypt` | final_project_finished/software/rsa/rsa_intonly.c:292-352 | a whole session: accepted exactly for two primes and an e < phi that is 1 or prime; then n, phi, the key and both powers are printed. Feeding the ciphertext back prints the message when p differs from q and e is not 1; for e = 1 the plaintext is always 1 |
| `Rsa.UseKeys` | final_project_finished/software/rsa/rsa_intonly.c:331-351 | key search, encryption and decryption in sequence on accepted inputs |
| `NumberTheory.Fermat` | final_project_finished/software/rsa/rsa_intonly.c:321-373 | a^p = a modulo p for every a, from the binomial theorem; the arithmetic fact the cipher rests on |
| `NumberTheory.Recombine` | final_project_finished/software/rsa/rsa_intonly.c:321-373 | congruence modulo two coprime numbers is congruence modulo their product |
| `NumberTheory.InverseExistsIffCoprime` | final_project_finished/software/rsa/rsa_intonly.c:321-373 | an inverse of e modulo phi exists, and exists below phi, if and only if the two are coprime |
| `NumberTheory.EuclidCoprime` | final_project_finished/software/rsa/rsa_intonly.c:321-373 | Euclid's lemma for a divisor coprime to one factor |
| `SequentialArithmetic.ProductIsExactIff` | final_project_finished/multiplier_sm.sv:26-48 | what the adder announces is the 32-bit product if and only if in2 is not 2^32-1 or in1 is 0 |
| `SequentialArithmetic.CaughtIff` | final_project_finished/modular.sv:14-83 | a started subtractor stays in its loop for good, whatever its wires show, if and only if the denominator is 0 |
| `SequentialArithmetic.AddingStep` | final_project_finished/multiplier_sm.sv:14-82 | every edge of an addition run keeps "out is in1 times the additions made" and strictly nears the announcement of the product; for in2 = 2^32-1 the announced product is 0 |
| `SequentialArithmetic.SubtractingStep` | final_project_finished/modular.sv:14-83 | every edge of a reduction keeps the remainder of the numerator and strictly nears its announcement |
| `SequentialArithmetic.AdderReleased` | final_project_finished/multiplier_sm.sv:50-53 | dropping ready returns the adder to waiting with the product still out |
| `SequentialArithmetic.AdderResetClears` | final_project_finished/multiplier_sm.sv:14-24 | an edge under a low reset line leaves the cleared adder, whatever it was doing |
| `SequentialArithmetic.SubtractorResetClears` | final_project_finished/modular.sv:14-21 | the same for the subtractor |
| `ModularMultiplier.ProgressStep` | final_project_finished/modular_multiplication.sv:33-121 | every edge of a multiplication, ready held, raises done only with the answer, and otherwise comes strictly closer |
| `ModularMultiplier.RaisesDoneWithAnswer` | final_project_finished/modular_multiplication.sv:33-121 | after a reset, ready on held operands and a nonzero denominator raises done after finitely many edges, not before the answer (product modulo 2^32, modulo the denominator) is out |
| `ModularMultiplier.DoneHolds` | final_project_finished/modular_multiplication.sv:42-121 | done is never lowered except by a reset |
| `ModularMultiplier.ResetClears` | final_project_finished/modular_multiplication.sv:33-92 | an edge under a low reset line leaves the cleared circuit, whatever it was doing |
| `ModularMultiplier.Released` | final_project_finished/modular_multiplication.sv:74-77 | dropping ready returns the circuit to waiting, done and the answer still out |
| `KeyGenerator.GenerateD.ComputeNextState` | final_project_finished/generate_d.sv:40-96 | the combinational block refines the transition function |
| `KeyGenerator.GenerateD.Drive` | final_project_finished/generate_d.sv:98-152 | the second clocked block writes exactly the registers of its state; what reaches the outputs is in `KeyGenerator.FirstKeyCompletes` |
| `KeyGenerator.GenerateD.Clock` | final_project_finished/generate_d.sv:31-152 | one positive edge, all registers sampling old values, a low reset acting ahead of the edge |
| `KeyGenerator.GenerateD.Run` | final_project_finished/generate_d.sv:31-152 | any finite input history drives the registers along the trace the lemmas speak of |
| `KeyGenerator.RunInvariantStep` | final_project_finished/generate_d.sv:40-152 | every edge of a run keeps: no counter value tried in this run was a hit, and the multiplier works on the present one; nothing depends on the possibly stale initial product |
| `KeyGenerator.RunFindsFirstHit` | final_project_finished/generate_d.sv:40-152 | every completed run, from any counter value and after any earlier runs, ends with the first counter value (without wrap) on which the multiplier answers 1 |
| `KeyGenerator.RunFindsNextInverse` | final_project_finished/generate_d.sv:40-152 | with an inverse of e within 32-bit products, a completed run ends with the least inverse at or above the counter at its start, and leaves the counter just behind it |
| `KeyGenerator.SecondRunAddsPhi` | final_project_finished/generate_d.sv:98-152 | the counter is not reset: a second run on the same key ends with the first key plus phi |
| `KeyGenerator.RestKeepsCounter` | final_project_finished/generate_d.sv:79-96 | from FINISHED through WAIT to the next run neither the counter nor the key changes |
| `KeyGenerator.EdgeDecreases` | final_project_finished/generate_d.sv:40-152 | every edge of a run decreases distance to the next hit, place in the loop, or work left in the multiplier, in that order |
| `KeyGenerator.ReachesFinished` | final_project_finished/generate_d.sv:40-152 | from any point of a run on a key with a hit ahead, FINISHED is reached |
| `KeyGenerator.RunCompletes` | final_project_finished/generate_d.sv:40-152 | every run since reset on coprime e and phi completes, given that e times (counter + phi) fits |
| `KeyGenerator.RunRaisesDone` | final_project_finished/generate_d.sv:84-152 | every completed run raises the done output one edge later, the key still out |
| `KeyGenerator.RunIsQuiet` | final_project_finished/generate_d.sv:40-152 | during a run the done output does not change, nor the key output before FINISHED |
| `KeyGenerator.StaysReady` | final_project_finished/generate_d.sv:46-53 | after a reset nothing is announced and no search begins until compute |
| `KeyGenerator.FirstKeyCompletes` | final_project_finished/generate_d.sv:31-152 | the first search after a reset, on a held key with an inverse, raises the done output exactly when the least inverse is out; until then d holds its reset value |
| `KeyGenerator.FirstKeyIsLeastInverse` | final_project_finished/generate_d.sv:31-152 | whatever the done output first announces after a reset is the least inverse; the key inputs need be held only until then |
| `KeyGenerator.KeyStays` | final_project_finished/generate_d.sv:84-91 | the key stays out under a raised done while compute is held and after it is dropped, when the circuit waits again |
| `KeyGenerator.FirstRunStartsAtOne` | final_project_finished/generate_d.sv:98-108 | after a reset the counter is 1 until the first run starts |
| `KeyGenerator.RunFindsLeastInverseIff` | final_project_finished/generate_d.sv:40-152 | any completed run, first or later, ends with the least inverse if and only if the counter started at or below it |
| `KeyGenerator.RunAgreesWithSoftwareIff` | final_project_finished/generate_d.sv:40-152 | any completed run yields the key of the C search if and only if e is not 1 and the counter has not passed that key |
| `KeyGenerator.FirstRunFindsLeastInverse` | final_project_finished/generate_d.sv:40-152 | the first run after reset ends with the least inverse of e |
| `KeyGenerator.FirstRunAgreesWithSoftware` | final_project_finished/generate_d.sv:40-152 | the first run after reset and the C search yield the same key if and only if e is not 1 |
| `ModularExponentiation.ProgressStep` | final_project_finished/modular_exponentiation.sv:32-142 | every edge of a run keeps "C is base times M to the multiplications made", counts them, and nears the end; done is raised with the answer only |
| `ModularExponentiation.CheckCounts` | final_project_finished/modular_exponentiation.sv:32-82 | the exit test is met after exactly e - s multiplications from a counter s < e, one from s >= e, and e + 1 from s = 2^32-1 |
| `ModularExponentiation.RaisesDoneWithAnswer` | final_project_finished/modular_exponentiation.sv:32-142 | ready on held operands ends the run after finitely many edges with exactly that many multiplications, and done does not change before |
| `ModularExponentiation.IteratedIsPower` | final_project_finished/modular_exponentiation.sv:23-25 | without wrap in 32 bits the repeated multiplication from 1 is the power modulo n |
| `ModularExponentiation.FirstAnswerIsPower` | final_project_finished/modular_exponentiation.sv:32-142 | the first answer after a reset is M^e modulo n for every e >= 1 |
| `ModularExponentiation.ZeroExponentAnswer` | final_project_finished/modular_exponentiation.sv:76-82 | for e = 0 it is M modulo n: the circuit multiplies before it tests |
| `ModularExponentiation.SecondRunMultipliesOnce` | final_project_finished/modular_exponentiation.sv:32-142 | a second run with the same exponent multiplies once, under a done that is still set from the first |
| `HardwareRsa.ProgressStep` | final_project_finished/rsa_encrypt.sv:24-102 | every edge of an encryption keeps its invariant and nears the end, through exponentiation and final reduction |
| `HardwareRsa.FirstEncryptionCompletes` | final_project_finished/rsa_encrypt.sv:24-102 | after a reset, an encryption on held operands with nonzero modulus completes; encryption-done is not raised before the result is out, and the output is 0 until then |
| `HardwareRsa.FirstEncryptionIsPower` | final_project_finished/rsa_encrypt.sv:24-102 | for M < n and products within 32 bits the delivered word is M^e modulo n if and only if e >= 1 or M = 1 modulo n |
| `HardwareRsa.HardwareRoundTrip` | final_project_finished/final_project.sv:153-164 | generator, encryption and decryption circuit together, each on its first run: every message below p*q comes back for distinct primes, any coprime e from 1 up, and (n-1)^2 below 2^32-1 |
| `HardwareRsa.WholeCipher` | final_project_finished/final_project.sv:153-164 | such a session always runs to its end by the done outputs alone: from any power-up registers the generator announces a key, both circuits deliver, and the message is back |
| `HardwareRsa.SecondEncryptionIsStale` | final_project_finished/rsa_encrypt.sv:24-102 | without a reset a second encryption ends three edges after its start, done never lowered and the first result still out, whatever its message, exponent and modulus |
| `HardwareRsa.AfterSecondEncryption` | final_project_finished/rsa_encrypt.sv:24-102 | afterwards, until a third start or a reset, the first result or its remainder by the new modulus is out; under the same modulus always the first result |
| `HardwareRsa.SecondEncryptionSettles` | final_project_finished/rsa_encrypt.sv:24-102 | with compute held there is an edge from which on the remainder of the first result by the new modulus is out, and before which the first result is |
| `HardwareRsa.SecondCiphertextIsRightIff` | final_project_finished/rsa_encrypt.sv:24-102 | under one key the second ciphertext is right, from the end of its run until a third start, if and only if the second message is the first |
| `HardwareRsa.SecondEncryptionHappens` | final_project_finished/rsa_encrypt.sv:24-102 | such a second encryption exists for any two messages and keys, from any power-up registers |
| `JtagUart.RingPush` | final_project_finished/software/rsa_bsp/drivers/src/altera_avalon_jtag_uart_write.c:126 | committing n laid-down bytes appends them to the ring, wrap included, if a slot stays free |
| `JtagUart.RingPop` | final_project_finished/software/rsa_bsp/drivers/src/altera_avalon_jtag_uart_init.c:174-184 | advancing the consumer index removes exactly the oldest bytes |
| `JtagUart.FullWhenNext` | final_project_finished/software/rsa_bsp/drivers/src/altera_avalon_jtag_uart_init.c:137-139 | the index test is met exactly when the ring holds L-1 bytes |
| `JtagUart.IrqConserves` | final_project_finished/software/rsa_bsp/drivers/src/altera_avalon_jtag_uart_init.c:117-197 | an interrupt, over any number of passes, only moves bytes on: from the transmit ring to the device and from the device into the receive ring, in order |
| `JtagUart.IrqDisablesSafely` | final_project_finished/software/rsa_bsp/drivers/src/altera_avalon_jtag_uart_init.c:156-194 | an interrupt turns its write enable off only with the transmit ring empty, its read enable only with the receive ring full |
| `JtagUart.OverflowFills` | final_project_finished/software/rsa_bsp/drivers/src/altera_avalon_jtag_uart_init.c:132-166 | if the device still announces bytes after a receive pass, the pass stored as many as there was room for |
| `JtagUart.ValidBytes` | final_project_finished/software/rsa_bsp/drivers/src/altera_avalon_jtag_uart_init.c:132-150 | the bytes a receive pass can take are those of the valid answers before the first invalid one, in order |
| `JtagUart.OverflowsIff` | final_project_finished/software/rsa_bsp/drivers/src/altera_avalon_jtag_uart_init.c:130-161 | a receive pass overflows exactly when it finds the ring full, or fills it with a byte after which more are announced |
| `JtagUart.Served` | final_project_finished/software/rsa_bsp/drivers/src/altera_avalon_jtag_uart_init.c:117-123 | passes are made exactly until a reading of the control register shows neither interrupt |
| `JtagUart.IrqDelivers` | final_project_finished/software/rsa_bsp/drivers/src/altera_avalon_jtag_uart_init.c:117-197 | an interrupt of any number of passes hands over the oldest bytes, as many as the served passes announce space for, stores the offered bytes as far as there is room, and clears the write enable exactly when space is left over and the read enable exactly on overflow |
| `JtagUart.BatchDelivers` | final_project_finished/software/rsa_bsp/drivers/src/altera_avalon_jtag_uart_init.c:117-225 | the same for several interrupts in a row |
| `JtagUart.JtagUart.constructor` | final_project_finished/software/rsa_bsp/drivers/src/altera_avalon_jtag_uart_init.c:66-100 | both rings start empty and no enable is missing |
| `JtagUart.JtagUart.ReceivePass` | final_project_finished/software/rsa_bsp/drivers/src/altera_avalon_jtag_uart_init.c:125-167 | takes from the device exactly the bytes it stores, appended in order, and disables itself exactly on overflow |
| `JtagUart.JtagUart.TransmitPass` | final_project_finished/software/rsa_bsp/drivers/src/altera_avalon_jtag_uart_init.c:169-195 | hands over the oldest min(space, ring) bytes in order and disables itself exactly when space is left |
| `JtagUart.JtagUart.IrqRoutine` | final_project_finished/software/rsa_bsp/drivers/src/altera_avalon_jtag_uart_init.c:117-197 | on the state itself: sent grows by the oldest min(announced space, ring) bytes, taken by the offered bytes up to the room, the write enable is cleared exactly when space is left over, the read enable exactly on overflow; both FIFO equations and both enable rules are kept |
| `JtagUart.JtagUart.TimeoutRoutine` | final_project_finished/software/rsa_bsp/drivers/src/altera_avalon_jtag_uart_init.c:203-225 | the host counter is 0 exactly after activity, counts silent seconds otherwise, and never exceeds INT_MAX - 2, which every reachable state keeps |
| `JtagUart.JtagUart.Preempt` | final_project_finished/software/rsa_bsp/drivers/src/altera_avalon_jtag_uart_init.c:117-225 | between two statements the next batch of interrupts has run in full, the invariant is kept and nothing the foreground owns is touched; a call is cut only when no batch is left |
| `JtagUart.JtagUart.RunBatch` | final_project_finished/software/rsa_bsp/drivers/src/altera_avalon_jtag_uart_init.c:117-225 | all interrupts of a batch are served in order, with the bytes moved and the silent seconds counted as they say |
| `JtagUart.JtagUart.CopyIn` | final_project_finished/software/rsa_bsp/drivers/src/altera_avalon_jtag_uart_write.c:122 | the copied chunk is intact in the free part of the ring although interrupts run between its bytes; one batch a byte |
| `JtagUart.JtagUart.FillRing` | final_project_finished/software/rsa_bsp/drivers/src/altera_avalon_jtag_uart_write.c:103-127 | under every interleaving a prefix of the data is committed, within four batches a byte; it is cut short only by a ring holding L-1 bytes or the end of the script |
| `JtagUart.JtagUart.Write` | final_project_finished/software/rsa_bsp/drivers/src/altera_avalon_jtag_uart_write.c:83-215 | under every placement of interrupts: exactly a prefix of the data is appended to the accepted bytes, a positive return is its length, an error code means nothing was committed, a short write needs non-blocking mode or a silent host, a ring that was full, and, if it still is, a host found given up during the call; and no enable is lost. A non-blocking call, and any call whose data fits, returns within 4*count+3 batches; a blocking one lets at most 9*count+10 batches pass after the last at which the ring was full and the host not given up |
| `JtagUart.JtagUart.CopyOut` | final_project_finished/software/rsa_bsp/drivers/src/altera_avalon_jtag_uart_read.c:136 | the chunk copied out is the front of the ring although interrupts run between its bytes; one batch a byte |
| `JtagUart.JtagUart.DrainRing` | final_project_finished/software/rsa_bsp/drivers/src/altera_avalon_jtag_uart_read.c:120-142 | delivers in order at least what the ring held at the start, as far as the buffer goes, within four batches a byte |
| `JtagUart.JtagUart.Read` | final_project_finished/software/rsa_bsp/drivers/src/altera_avalon_jtag_uart_read.c:100-203 | under every placement of interrupts: the bytes returned are exactly those appended to the delivered history, the return value is their number, an error code means none, a blocking call fails only with the ring empty and after finding the host given up, and the read enable is restored. A non-blocking call, and any call that finds data, returns within 4*space+3 batches; a blocking one lets at most 4*space+7 batches pass after the last at which the ring was empty and the host not given up |
| `JtagUart.JtagUart.Close` | final_project_finished/software/rsa_bsp/drivers/src/altera_avalon_jtag_uart_init.c:241-254 | returns 0 only with every accepted byte sent or the host given up; the non-blocking refusal means bytes remain and the host is not given up; a call waits no more than two batches beyond that, and can be cut only while waiting for both |
| `JtagUart.JtagUart.Session` | final_project_finished/software/rsa_bsp/drivers/src/altera_avalon_jtag_uart_write.c:100-200 | over any sequence of calls and any interrupts, cut nowhere but at the end of the script: bytes sent followed by the ring are the concatenation of what the writes accepted, and bytes taken are those delivered followed by the ring; writes fall short only once the room is used up, reads only once the ring is drained, and non-blocking calls are all performed within their batches |
| `FdTable.FirstFree` | final_project_finished/software/rsa_bsp/HAL/src/alt_get_fd.c:77-89 | the lowest free descriptor, or the table size if none |
| `FdTable.OpenFlags` | final_project_finished/software/rsa_bsp/HAL/src/alt_open.c:139 | a caller cannot set the exclusive or the device bit through open |
| `FdTable.OpenFlagsOtherBits` | final_project_finished/software/rsa_bsp/HAL/src/alt_open.c:139 | every other flag bit given to open is stored |
| `FdTable.SetStatusOtherBits` | final_project_finished/software/rsa_bsp/HAL/src/alt_fcntl.c:87-91 | fcntl leaves all bits but its own as they were |
| `FdTable.SetStatusOwnBits` | final_project_finished/software/rsa_bsp/HAL/src/alt_fcntl.c:87-91 | and takes its own from the argument |
| `FdTable.FlagsRoundTrip` | final_project_finished/software/rsa_bsp/HAL/src/alt_fcntl.c:82-92 | F_GETFL returns the flags given to open without the two reserved bits, and after F_SETFL with its bits replaced; nothing else changes |
| `FdTable.FcntlRefuses` | final_project_finished/software/rsa_bsp/HAL/src/alt_fcntl.c:78-101 | a negative descriptor and an unknown command are refused with EBADFD and EINVAL and change nothing |
| `FdTable.SetStatus` | final_project_finished/software/rsa_bsp/HAL/src/alt_fcntl.c:87-91 | fcntl cannot change the exclusive or the device bit |
| `FdTable.BootInvariant` | final_project_finished/software/rsa_bsp/HAL/src/alt_dev.c:118-150 | the reset table satisfies the invariant |
| `FdTable.SingleHolder` | final_project_finished/software/rsa_bsp/HAL/src/alt_fd_lock.c:54-75 | in a table satisfying the invariant at most one descriptor of a device is exclusive |
| `FdTable.HolderIsSeen` | final_project_finished/software/rsa_bsp/HAL/src/alt_open.c:79-87 | the scan of open reaches every exclusive holder |
| `FdTable.LockKeeps` | final_project_finished/software/rsa_bsp/HAL/src/alt_fd_lock.c:61-69 | a granted lock keeps "every other descriptor on a locked device has a larger index than the holder" although the scan stops one short of the high-water mark |
| `FdTable.OpenKeeps` | final_project_finished/software/rsa_bsp/HAL/src/alt_open.c:105-171 | open, successful or not, keeps the invariant |
| `FdTable.ReleaseKeeps` | final_project_finished/software/rsa_bsp/HAL/src/alt_release_fd.c:44-51 | releasing keeps the invariant |
| `FdTable.RedirectKeeps` | final_project_finished/software/rsa_bsp/HAL/src/alt_io_redirect.c:58-72 | copying a fresh descriptor over a standard stream keeps the invariant |
| `FdTable.StepKeeps` | final_project_finished/software/rsa_bsp/HAL/src/alt_ioctl.c:106-168 | every system call keeps the invariant |
| `FdTable.RunKeeps` | final_project_finished/software/rsa_bsp/HAL/src/alt_open.c:105-171 | so does every run of system calls |
| `FdTable.ReachableSingleHolder` | final_project_finished/software/rsa_bsp/HAL/src/alt_fd_lock.c:54-75 | in every state reachable from reset, for every table size, a device has at most one exclusive holder |
| `FdTable.OpenRefused` | final_project_finished/software/rsa_bsp/HAL/src/alt_open.c:79-92 | open of a device with an exclusive holder fails |
| `FdTable.HolderSurvives` | final_project_finished/software/rsa_bsp/HAL/src/alt_ioctl.c:127-145 | no call but unlock or close of the holder (above the standard streams), or a redirection over it, takes the lock away |
| `FdTable.LockExcludes` | final_project_finished/software/rsa_bsp/HAL/src/alt_open.c:64-92 | over every run without such a call, every open of the locked device fails and the holder keeps its lock |
| `FdTable.GrantMeansSoleUserIff` | final_project_finished/software/rsa_bsp/HAL/src/alt_fd_lock.c:61-69 | a granted lock makes its holder the only user of the device if and only if the descriptor at the high-water mark is its own or on another device |
| `FdTable.GrantedLockIsShared` | final_project_finished/software/rsa_bsp/HAL/src/alt_fd_lock.c:61-69 | a run from reset in which a lock is granted although a second descriptor is open on the device |
| `FdTable.OpenTouchesOnlyFree` | final_project_finished/software/rsa_bsp/HAL/src/alt_open.c:132-170 | open leaves every descriptor in use as it was and never returns one of them |
| `FdTable.OpenTakesLowestFree` | final_project_finished/software/rsa_bsp/HAL/src/alt_open.c:132-170 | a successful open takes the lowest free slot above the standard streams, for a device nobody holds, and changes no other descriptor |
| `FdTable.OpenSucceedsIff` | final_project_finished/software/rsa_bsp/HAL/src/alt_open.c:105-171 | open succeeds if and only if the name is registered, a slot is free, nobody holds the device, and the driver agrees; the error names the first of these that fails |
| `FdTable.OpenMarks` | final_project_finished/software/rsa_bsp/HAL/src/alt_get_fd.c:82-85 | the high-water mark is raised exactly to the slot tried, if that is higher |
| `FdTable.CloseFrees` | final_project_finished/software/rsa_bsp/HAL/src/alt_close.c:64-101 | close clears the device and flags of a descriptor above the standard streams, whether or not the driver fails, and changes no other descriptor and not the mark |
| `FdTable.ClosedSlotIsReused` | final_project_finished/software/rsa_bsp/HAL/src/alt_close.c:64-101 | the next open that nothing else hinders takes the closed slot or a lower one |
| `FdTable.LockHolds` | final_project_finished/software/rsa_bsp/HAL/src/alt_fd_lock.c:54-75 | a lock is granted if and only if no other descriptor below the mark is on the device; then the descriptor holds it, otherwise EACCES and no change |
| `FdTable.UnlockFrees` | final_project_finished/software/rsa_bsp/HAL/src/alt_fd_unlock.c:52-56 | after an unlock by the holder nobody holds the device, and an open of it with a free slot succeeds again |
| `FdTable.OtherIoctlsPass` | final_project_finished/software/rsa_bsp/HAL/src/alt_ioctl.c:106-168 | every other request goes to the driver and changes no descriptor |
| `FdTable.RedirectMoves` | final_project_finished/software/rsa_bsp/HAL/src/alt_io_redirect.c:58-72 | after a redirection the stream has the opened device and flags, the descriptor it was opened on is free again, and no other is changed; after a failed one the stream is as before |
| `FdTable.FailedOpenRestoresIff` | final_project_finished/software/rsa_bsp/HAL/src/alt_open.c:158-165 | a failed open leaves all descriptors as they were if and only if the slot it tried, if any, carried no flags; only the high-water mark may rise |
| `FdTable.FailedOpenRestores` | final_project_finished/software/rsa_bsp/HAL/src/alt_open.c:132-170 | after any run from reset with fcntl used on open descriptors only, a failed open changes no descriptor |
| `FdTable.FailedOpenClearsFlags` | final_project_finished/software/rsa_bsp/HAL/src/alt_fcntl.c:82-92 | a run in which fcntl on a closed descriptor makes a later failed open change the table |
| `FdTable.FdList.GetFd` | final_project_finished/software/rsa_bsp/HAL/src/alt_get_fd.c:54-101 | claims the lowest free slot and raises the mark, or changes nothing and reports a full table |
| `FdTable.FdList.ReleaseFd` | final_project_finished/software/rsa_bsp/HAL/src/alt_release_fd.c:44-51 | clears slots above 2 and leaves the standard streams |
| `FdTable.FdList.FileLocked` | final_project_finished/software/rsa_bsp/HAL/src/alt_open.c:64-92 | marks the descriptor as a device and reports whether another descriptor up to the mark holds it exclusively |
| `FdTable.FdList.OpenFile` | final_project_finished/software/rsa_bsp/HAL/src/alt_open.c:105-171 | open in place refines the table function, errno included |
| `FdTable.FdList.CloseFile` | final_project_finished/software/rsa_bsp/HAL/src/alt_close.c:64-101 | close in place refines the table step whose effect `FdTable.CloseFrees` states |
| `FdTable.FdList.FdLock` | final_project_finished/software/rsa_bsp/HAL/src/alt_fd_lock.c:54-75 | locks exactly when no other descriptor strictly below the mark is on the device |
| `FdTable.FdList.FdUnlock` | final_project_finished/software/rsa_bsp/HAL/src/alt_fd_unlock.c:52-56 | clears the exclusive bit and nothing else |
| `FdTable.FdList.IoctlFile` | final_project_finished/software/rsa_bsp/HAL/src/alt_ioctl.c:106-168 | ioctl in place refines the table function |
| `FdTable.FdList.FcntlFile` | final_project_finished/software/rsa_bsp/HAL/src/alt_fcntl.c:66-101 | fcntl in place refines the table function |
| `FdTable.FdList.OpenFd` | final_project_finished/software/rsa_bsp/HAL/src/alt_io_redirect.c:58-72 | redirects a stream, or leaves it when the device does not open |
| `FdTable.FdList.IoRedirect` | final_project_finished/software/rsa_bsp/HAL/src/alt_io_redirect.c:85-94 | the boot step is the run output, input, error of redirections |
| `Alarms.StartTracks` | final_project_finished/software/rsa_bsp/HAL/src/alt_alarm_start.c:80-96 | time and rollover flag of a started alarm stand for the deadline now + nticks + 1 on an unbounded clock, the flag saying that it lies in a later epoch of 2^32 ticks |
| `Alarms.TickExact` | final_project_finished/software/rsa_bsp/HAL/src/alt_tick.c:109-138 | an alarm that stands for a deadline ahead fires at it and at no other tick, and goes on standing for it, or the next one |
| `Alarms.StartKeeps` | final_project_finished/software/rsa_bsp/HAL/src/alt_alarm_start.c:80-96 | every started alarm, the largest interval included, satisfies what a listed alarm keeps |
| `Alarms.TickKeeps` | final_project_finished/software/rsa_bsp/HAL/src/alt_tick.c:109-138 | every listed alarm fires exactly at its time: at its deadline, or at the next tick if that has passed |
| `Alarms.StartFiresExactlyIff` | final_project_finished/software/rsa_bsp/HAL/src/alt_alarm_start.c:80-96 | an alarm first fires exactly nticks + 1 ticks after its start if and only if nticks < 2^32-1, or the counter stands at 2^32-1 |
| `Alarms.FiringsFollowSchedule` | final_project_finished/software/rsa_bsp/HAL/src/alt_tick.c:96-140 | over any number of ticks and wraps every 32-bit alarm fires exactly when its unbounded schedule says |
| `Alarms.StartedIsPlain` | final_project_finished/software/rsa_bsp/HAL/src/alt_alarm_start.c:80-96 | that schedule is plain (nticks + 1 ticks after the start, then each interval after the last firing) for every nticks < 2^32-1, and for the largest when the counter stands at 2^32-1 |
| `Alarms.VisitKeepsFate` | final_project_finished/software/rsa_bsp/HAL/src/alt_tick.c:109-138 | one visit does not change the past and future firings of an alarm |
| `Alarms.SurvivorsStep` | final_project_finished/software/rsa_bsp/HAL/src/alt_tick.c:100-141 | after each visit the list is the surviving alarms followed by those not visited yet, in the old order |
| `Alarms.AlarmList.Insert` | final_project_finished/software/rsa_bsp/HAL/inc/sys/alt_llist.h:90-98 | the circular doubly linked list stays well formed and has the entry as its first element |
| `Alarms.AlarmList.Remove` | final_project_finished/software/rsa_bsp/HAL/inc/sys/alt_llist.h:105-117 | removes the entry and closes the circle; harmless when repeated |
| `Alarms.AlarmList.Unlink` | final_project_finished/software/rsa_bsp/HAL/inc/sys/alt_llist.h:105-117 | the four pointer assignments take an element out of the circle, or do nothing to a self-linked one |
| `Alarms.AlarmList.Stop` | final_project_finished/software/rsa_bsp/HAL/src/alt_tick.c:66-73 | stopping removes exactly this alarm; stopping again changes nothing |
| `Alarms.AlarmList.Start` | final_project_finished/software/rsa_bsp/HAL/src/alt_alarm_start.c:64-112 | sets the alarm up for its deadline and lists it first, or fails without listing it |
| `Alarms.AlarmList.Visit` | final_project_finished/software/rsa_bsp/HAL/src/alt_tick.c:109-138 | the loop body: what one alarm becomes, and whether it leaves the list |
| `Alarms.AlarmList.VisitAll` | final_project_finished/software/rsa_bsp/HAL/src/alt_tick.c:100-141 | the walk terminates and visits every listed alarm exactly once while alarms unlink themselves |
| `Alarms.AlarmList.Tick` | final_project_finished/software/rsa_bsp/HAL/src/alt_tick.c:87-148 | one tick advances the clock by one, visits every listed alarm once, fires each exactly at its time, and unlists exactly those whose callback returned zero |
| `Alarms.AlarmList.Run` | final_project_finished/software/rsa_bsp/HAL/src/alt_tick.c:87-148 | after any number of ticks every listed alarm has fired exactly as its schedule says: at its deadline and then at every interval its callback asked for |
| `Numerals.ValueOfDigits` | final_project_finished/software/rsa_bsp/HAL/src/alt_log_printf.c:247-255 | the reference numeral of a value denotes it |
| `Numerals.CanonicalUnique` | final_project_finished/software/rsa_bsp/HAL/src/alt_log_printf.c:247-255 | a numeral without superfluous zeros is determined by its value |
| `Numerals.DigitsCanonical` | final_project_finished/software/rsa_bsp/HAL/src/alt_log_printf.c:247-255 | the reference numeral has no superfluous leading zero |
| `LogPrintf.PrintInteger` | final_project_finished/software/rsa_bsp/HAL/src/alt_log_printf.c:203-297 | sign, padding and digits in base 8, 10 or 16 come out exactly as laid out by the reference |
| `LogPrintf.CountDigits` | final_project_finished/software/rsa_bsp/HAL/src/alt_log_printf.c:247-255 | the digit count is that of the shortest numeral, and the place value is that of its first digit, without overflow |
| `LogPrintf.PrintDigits` | final_project_finished/software/rsa_bsp/HAL/src/alt_log_printf.c:281-296 | the digits printed from the place value down are the shortest numeral |
| `LogPrintf.StripSign` | final_project_finished/software/rsa_bsp/HAL/src/alt_log_printf.c:238-245 | sign and magnitude of the two's-complement argument, -2^31 included |
| `LogPrintf.RepeatChar` | final_project_finished/software/rsa_bsp/HAL/src/alt_log_printf.c:106-110 | prints max(0, count) characters |
| `LogPrintf.MeaningIs` | final_project_finished/software/rsa_bsp/HAL/src/alt_log_printf.c:238-245 | the number meant is the only one in the range of the type that is congruent to the 32-bit argument |
| `LogPrintf.PrintedReadsBack` | final_project_finished/software/rsa_bsp/HAL/src/alt_log_printf.c:203-297 | for every 32-bit argument, signedness, base, width and padding, reading the text gives a number congruent to the argument modulo 2^32 and in the range of its type |
| `LogPrintf.PrintedShape` | final_project_finished/software/rsa_bsp/HAL/src/alt_log_printf.c:257-296 | padding is spaces before the sign or zeros after it as asked, a minus sign shows exactly for negative numbers, and letters are of the case asked for |
| `LogPrintf.PrintedAfterSpaces` | final_project_finished/software/rsa_bsp/HAL/src/alt_log_printf.c:257-296 | after padding with spaces only the sign and the shortest numeral follow |
| `LogPrintf.PrintedLength` | final_project_finished/software/rsa_bsp/HAL/src/alt_log_printf.c:257-279 | the text is max(width, digits and sign) long, with no superfluous leading digit |
| `AltPrintf.PrintHex` | final_project_finished/software/rsa_bsp/HAL/src/alt_printf.c:82-111 | terminates and prints the shortest lower-case hexadecimal numeral |
| `AltPrintf.HexReadsBack` | final_project_finished/software/rsa_bsp/HAL/src/alt_printf.c:82-111 | reading it gives the 32-bit value back; no leading zero except for 0 itself |
| `TimeOfDay.WallClock.SetTimeOfDay` | final_project_finished/software/rsa_bsp/HAL/src/alt_settod.c:72-96 | stores the time of reset, or fails with ENOSYS and changes nothing |
| `TimeOfDay.WallClock.GetTimeOfDay` | final_project_finished/software/rsa_bsp/HAL/src/alt_gettod.c:79-123 | returns stored time plus elapsed ticks exactly, with 0 <= microseconds < 10^6; zero is returned instead exactly when the time lies before zero and microseconds must be borrowed |
| `TimeOfDay.TicksAreMicros` | final_project_finished/software/rsa_bsp/HAL/src/alt_gettod.c:91-93 | whole seconds plus remaining microseconds are the elapsed microseconds when the rate divides 10^6 |
| `TimeOfDay.LostNothingIff` | final_project_finished/software/rsa_bsp/HAL/src/alt_settod.c:82-84 | the 32-bit product loses nothing if and only if 5^6 divides the number of its wraps |
| `TimeOfDay.SetThenGetIff` | final_project_finished/software/rsa_bsp/HAL/src/alt_settod.c:80-84 | the time a caller gets back is exact if and only if 5^6 divides the wraps of the set-time product, or time zero is read at once and the clamp hides a negative loss |
| `TimeOfDay.ClampHidesLoss` | final_project_finished/software/rsa_bsp/HAL/src/alt_settod.c:80-84 | a concrete case of the second kind |
| `TimeOfDay.ExactWhileProductFits` | final_project_finished/software/rsa_bsp/HAL/src/alt_settod.c:80-84 | in particular while that product fits 32 bits, and the clamp to zero is never taken |
| `TimeOfDay.SetAfterWrapIsWrong` | final_project_finished/software/rsa_bsp/HAL/src/alt_settod.c:80-84 | at 1000 ticks a second, setting the clock one tick past the first wrap makes it wrong |

## Left out

- The handshake between processor and circuits (`io_module.sv`, `hardware_encrypt`), which passes single words, and `phi_gen.sv` and `n_gen.sv`, plain products.
- `prime_checker_sv.sv`: it tests divisibility by the primes up to 19, which is not a primality test; `HardwareRsa.HardwareRoundTrip` takes p and q to be prime.
- The combinational variants (`*_nosm.sv`), `rsa_decrypt.sv`, `rsa_controller.sv`, `multiplier.sv`, display and top-level wiring beyond the three circuits of `HardwareRsa.HardwareRoundTrip`: not instantiated, or without behaviour of their own.
- Simulation order between clocked blocks that use blocking assignments; each edge is taken as the synthesised registers behave, all sampling the values before it, with a block's own blocking assignments seen in that block.
- In-place classes for the circuits other than the key generator: they are step functions over register records, which leaves out nothing but the assignment form.
- `scanf`, prompts and repeated input of the C program: `Rsa.SoftwareEncrypt` is one session on given inputs, and reports a rejected one.
- uC/OS-II event flags and semaphores, the small (polled) UART driver, direct-driver variants, and discarding output for an absent host: not in the default build.
- Clearing the activity bit in the control register, and registering interrupt and alarm in the UART's initialisation: device configuration.
- JtagUart.JtagUart.Write: nothing is promised about progress of the device; a blocking call waits as long as the ring is full and the host not given up.
- HardwareRsa.AfterSecondEncryption: a second modulus of 0 (on which the subtractor is caught, `SequentialArithmetic.CaughtIff`), and what a third or later encryption without a reset delivers, which depends on how far the exponentiation circuit has come in the background.
- Device lookup by name, the `priv` field, and driver callbacks that themselves change descriptors: each open names the device or file system it resolved to.
- Alarms whose callbacks start or stop other alarms during the tick: the walk holds a pointer to the successor and is not safe against that.
- The format scanner of the logging printf and its `%c` and `%s`; `alt_printf` beyond `%x`: copying of characters.
- TimeOfDay.SetThenGetIff: seconds are unbounded, tick rates divide 10^6, and the tick counter does not wrap between set and get.
- System-call stubs, boot code, cache flushing, `sbrk`, busy sleep, profiling: hardware-bound or without state worth a claim.
