# Streaming sum: codec, decoders and worker protocols

The `stream-test-*` programs read records that hold arrays of integers, written as counted blocks of
zig-zag varints, and produce the encoded 64-bit sum of each record. The programs exist in Rust (on
rdkafka and on krafka), C, Go, Java, Scala, Python and Ruby. Each carries its own copy of the codec and
its own protocol for sharing the work among W workers and stopping near TOTAL records. This project
models both parts and proves what they promise, where the copies agree, and where they do not.

## What is modelled

**The codec and the decoders.** `Bits` defines two's-complement bit operations on integers and the
words cut out of them. `Varint` and `Blocks` are the format as mathematics: the Apache Avro 1.11
specification, "Binary Encoding" ("Primitive Types" for int and long, "Complex Types / Arrays" for block
counts), whose groups are the LEB128 form of DWARF 5, section 7.6. `Codec` and `Decoders` hold the
programs' own loops, with their cursors, buffers, shifts and masks, one method for each variant, and
each is proved to compute the format's function. The variants differ in their loop guards, at the end
of the input, after ten bytes, and in the treatment of negative counts; `Varint.Dialect` names them.
`EndToEnd` puts producer, processor and consumer in a row.

**The krafka worker pipeline.** `KrafkaPipeline` is a state machine of W workers, each a consume loop
and a produce task joined by a bounded channel, and the shared counter; all interleavings of the
workers' atomic actions are runs. TOTAL, the window, the poll size and the batch size are parameters,
and `CodeConfig` holds the code's constants. `KrafkaOvershoot` builds the worst run. `ConsumeLoop` and
`SendLoops` are the loops as written: the consume loop against any sequence of counter readings and
polls (`ConsumeRuns` plays it back as steps of the pipeline), the Phase 1 loader with its send window,
and the produce task after `drop(tx)`. `SendOrder` models the executor that first-polls sends and the
broker that accepts only the next number.

**The other worker protocols.** `BatchedWorkers` covers C (batches of 1), Go, Python and Rust on rdkafka
(batches of 1000), `BatchedOvershoot` their worst run, `BenchmarkWorkers` the Java benchmark, and
`SharedCounter` the counters at the grain of single reads and writes, with the reporters that reset
them. `Totals` sums over workers.

## Assumptions

- Atomic operations on the counters interleave in one order (sequential consistency); the code uses
  relaxed ordering.
- Rust is a release build: additions wrap and shift counts are masked to six bits. Go's `int` has 64 bits
  and C's has 32.
- A poll returns an error, nothing, or up to max_poll next records of the worker's partition; a send
  completes at some later step, and is counted whatever its result. Both belong to the network, so
  `Progress` and `ShutdownBound` speak of the workers' own steps and take it that polls return and sends
  complete.
- A `FuturesUnordered` polls its futures from one FIFO ready queue, a future draws its sequence number
  at its first poll of `send`, and the broker takes the sends of a partition in push order.

## Where code and documentation differ

The code is followed.

- `docs/stream-sum-krafka-design.md:74-75` says that outside benchmark mode Phase 2 goes on for ever. In
  every mode the workers stop at TOTAL or after three empty polls in a row, and a failed poll neither
  counts as empty nor starts the count afresh (`stream-test-krafka/src/bin/processor.rs:309-330`).
- `docs/krafka-idempotent-producer-concurrency-safety.md:56-62` describes a Phase 1 of spawned tasks.
  The code has moved to one `FuturesUnordered`, and `SendOrder.OrderedExactly` says why it had to.

## Properties that fail, and exactly when they hold

- The encoders that compare as signed words are right if and only if -2^62 <= n < 2^62
  (`Codec.SignedGuardDomain`); through the rdkafka processor the consumer therefore sees the sum if and
  only if it lies in that range (`EndToEnd.EndToEnd`).
- The encoders on unbounded integers are right if and only if n is a 64-bit number
  (`Codec.UnboundedDomain`).
- The krafka decoder, which has no branch for negative counts, is right on all records of a shape if and
  only if all counts are positive (`Blocks.KrafkaShapes`). The same holds of the records with true byte
  sizes, but for a count of 1 - 2^63, whose items cannot take more than one byte each
  (`Blocks.KrafkaTrueShapes`). Single records with true sizes are read right if the items of sized blocks
  take one byte each (`Blocks.KrafkaReadable`), which is also necessary of a last sized block
  (`Blocks.KrafkaLastSized`) but not of others (`Blocks.KrafkaResyncs`).
- Rust and Java agree with Go on numbers of up to ten bytes, and on longer ones if and only if the digits
  beyond the tenth fall on bits that are set already (`Varint.OverlongDomain`; `Varint.OverlongDiffers`
  has bytes on which they do not).
- C, Java and Scala have an outcome on a record if and only if its counts fit an int and, in C, its numbers
  have at most ten bytes (`Blocks.DecodersAgree`, for the records that Rust on rdkafka decodes).
- C and the Java benchmark agree on a number cut off by the end of the input if and only if its bits are
  all zero (`Blocks.EndOfInputDomain`).
- The counters that publish only whole batches show TOTAL after exactly TOTAL records if and only if
  every worker's share is a whole number of batches; otherwise no worker ever stops
  (`BatchedWorkers.TargetSeen`, with a schedule in `BatchedWorkers.RemaindersHang`).
- Sends are never rejected if and only if they share one ready queue and await nothing before `send`
  (`SendOrder.OrderedExactly`).
- The broker accepts sends in another order than they were pushed if and only if no partition sees it
  (`SendOrder.AcceptedExactly`, `SendOrder.OvertakingAcross`).
- Counts are conserved if and only if the additions are atomic or guarded (`SharedCounter.ConservedExactly`).

## Model

| member | source | states |
|---|---|---|
| Varint.GroupsShape | stream-test-krafka/src/bin/processor.rs:39-43 | only the last byte of an encoding has its high bit clear, no empty top group is written, and the groups spell the number |
| Varint.EncodeLength | stream-test-krafka/src/bin/processor.rs:37-44 | an encoding is as long as its zig-zag value has base-128 digits: at least one byte, at most ten for an i64 |
| Varint.RoundTrip | stream-test-krafka/src/bin/processor.rs:18-44 | for every i64 and every suffix, reading the encoding followed by the suffix returns the number and leaves exactly the suffix, in every program's reader |
| Varint.PrefixFree | stream-test-krafka/src/bin/processor.rs:37-44 | no number's encoding is a prefix of another number's |
| Varint.UniqueParse | stream-test-krafka/src/bin/processor.rs:37-44 | a concatenation of encodings comes from one list only |
| Varint.KrafkaReencode | stream-test-krafka/src/bin/processor.rs:18-44 | on any bytes with a terminator or at least ten bytes the krafka reader takes one to ten of them, its result re-encodes to no more bytes, and to the same bytes exactly if they were canonical |
| Varint.WordRound | stream-test-krafka/src/bin/processor.rs:24 | one round of shift, mask and or makes the word of one more byte, in every word language and for numbers of any length where that is defined |
| Varint.DigitRound | stream-test-krafka/src/bin/processor.rs:20-31 | up to the tenth byte that word is the base-128 number, modulo 2^64 |
| Varint.GoKeepsTen | stream-test-go/cmd/processor/main.go:22-28 | in Go a number of any length reads as its first ten bytes do |
| Varint.OverlongDomain | stream-test-rust/src/bin/processor.rs:19-25 | on numbers of any length Rust and Java agree with Go if and only if every digit beyond the tenth falls on bits that the first ten bytes have set |
| Varint.OverlongDiffers | stream-test-go/cmd/processor/main.go:22-28 | on ten bytes 0x80 and a byte 0x01 Rust reads 32 and Go reads 0 |
| Codec.UnzigMeans | stream-test-krafka/src/bin/processor.rs:33 | the shift and exclusive-or at the end of a reader are the inverse zig-zag map, on words and on unbounded integers |
| Codec.ZigMeans | stream-test-krafka/src/bin/processor.rs:38 | the shifts and exclusive-or at the start of an encoder are the zig-zag map, with the wrap-around at both ends of i64 |
| Codec.ZigIntMeans | stream-test-python/bin/processor.py:21 | without a word size the same expression is the zig-zag map if and only if the number is an i64 |
| Codec.ReadKrafka | stream-test-krafka/src/bin/processor.rs:18-34 | the loop with its ten-byte cut-off computes the krafka reader, value and rest, and panics exactly where that does |
| Codec.ReadChecked | stream-test-rust/src/bin/processor.rs:16-27 | the loop without a cut-off computes the checked reader, numbers of any length included, and panics exactly at the end of the input |
| Codec.ReadBounded | stream-test-c/src/main.c:19-30 | the loop bounded by `end` computes the bounded reader, never moves past `end`, moves on unless it returns 0, and is undefined exactly from an eleventh byte on |
| Codec.ReadZeroAtEnd | stream-test-java/src/main/java/com/example/kafka/StreamSumBenchmark.java:50-61 | the loop computes the reader that gives 0 at the end of the input, numbers of any length included |
| Codec.ReadAhead | stream-test-scala/src/main/scala/com/example/kafka/StreamSumApp.scala:34-44 | the loop that reads one byte ahead computes the same reader as the Java benchmark |
| Codec.ReadStreamApp | stream-test-java/src/main/java/com/example/kafka/StreamSumApp.java:49-59 | the loop without an end-of-input test computes its reader on every byte string, and goes on for ever exactly where the input ends inside a number |
| Codec.ReadPython | stream-test-python/bin/processor.py:9-18 | the loop on unbounded integers computes the unbounded reader and returns the position after it |
| Codec.WriteVarint | stream-test-krafka/src/bin/processor.rs:37-44 | the loop with the unsigned comparison appends exactly the encoding to the buffer, for every i64 |
| Codec.WriteArray | stream-test-c/src/main.c:32-41 | the C loop writes exactly the encoding at the offset, returns its length, needs ten bytes of room at most and touches no others |
| Codec.WriteSigned | stream-test-rust/src/bin/processor.rs:30-37 | the loop with the signed comparison appends exactly what `SignedEncode` says, for every i64 |
| Codec.SignedGuardDomain | stream-test-rust/src/bin/processor.rs:31-36 | that is the right encoding if and only if -2^62 <= n < 2^62; otherwise it is one byte, from which the number cannot be read back |
| Codec.WriteUnbounded | stream-test-python/bin/processor.py:20-27 | the loop on unbounded integers writes exactly what `UnboundedEncode` says, for every integer |
| Codec.UnboundedDomain | stream-test-ruby/bin/producer.rb:7-16 | that is the right encoding, and reads back as the number, if and only if it is an i64 |
| Blocks.ItemsDecode | stream-test-rust/src/bin/processor.rs:118 | any items read back, wrapping at every addition, give their wrapped sum and leave exactly what follows |
| Blocks.BlocksDecode | stream-test-go/cmd/processor/main.go:163-186 | any list cut into any non-empty blocks, each with a positive count or a negative count and any byte-size varint, decodes to the wrapped sum of the whole list with the cursor exactly after the terminator: in krafka if no count is negative, in C and on the JVM if no block has 2^31 items, in the others always |
| Blocks.BlocksLost | stream-test-c/src/main.c:91-95 | as soon as one of the blocks, plain or sized, has 2^31 items or more, the int index of C and the JVM programs overflows and they have no outcome, whatever follows |
| Blocks.Specified | stream-test-krafka/src/bin/processor.rs:346-355 | the krafka decoder, and every other but those in C and on the JVM, has a sum or a panic on every byte string |
| Blocks.KrafkaShapes | stream-test-krafka/src/bin/processor.rs:350-355 | the krafka decoder is right on all records with given block counts if and only if the counts are positive |
| Blocks.KrafkaReadable | stream-test-krafka/src/bin/processor.rs:350-355 | it is right on every record whose negative counts come with true byte sizes and one-byte items, over any number of blocks |
| Blocks.KrafkaLastSized | stream-test-krafka/src/bin/processor.rs:350-355 | after such blocks, a last block with its true byte size is read right if and only if its items take one byte each; otherwise the decoder panics |
| Blocks.KrafkaTrueShapes | stream-test-krafka/src/bin/processor.rs:350-355 | among records with true byte sizes, too, all of given counts are decoded right if and only if no count is negative, but for the one count that leaves no room for items of two bytes |
| Blocks.KrafkaResyncs | stream-test-krafka/src/bin/processor.rs:350-355 | for single records of two blocks one-byte items are not necessary: a misread size may swallow the next block, whose count and size cancel in the sum |
| Blocks.DecodePadded | stream-test-c/src/main.c:89-96 | on every input on which it has an outcome the C decoder computes what the decoders of Rust on rdkafka and Go compute with enough zero bytes appended, however many |
| Blocks.EndOfInputDomain | stream-test-c/src/main.c:19-30 | at the end of the input C and the Java benchmark read the same number if and only if the number ended or its bits are all zero |
| Blocks.DecodersAgree | stream-test-java/src/main/java/com/example/kafka/StreamSumBenchmark.java:129-137 | wherever Rust on rdkafka decodes a record, every other program returns the same sum and rest, or in Python and Ruby one that is the same modulo 2^64, if every count and number met fits: counts the int index in C and on the JVM, not negative in krafka; numbers of at most ten bytes in C and krafka, below 2^64 in Python and Ruby, without new late bits in Go. Otherwise C, Java and Scala have no outcome |
| Decoders.DecodeKrafka | stream-test-krafka/src/bin/processor.rs:347-355 | the nested loops compute the krafka decoder: sum, position and panics, on every byte string |
| Decoders.DecodeLoop | stream-test-rust/src/bin/processor.rs:113-120 | the nested loops that Rust, C, Java and Scala share, run with the index of each (32 bits wide in C and on the JVM), compute the decoder of each over its own reader, in no more blocks than bytes, and have no outcome exactly where the decoder has none |
| Decoders.DecodeRdkafka | stream-test-rust/src/bin/processor.rs:113-120 | sum, position and panics of the checked decoder on every byte string, with `abs` of i64::MIN wrapping to an empty block |
| Decoders.DecodeC | stream-test-c/src/main.c:87-96 | on every byte string the sum and position of the bounded decoder, after no more blocks than bytes and within the input; undefined exactly where a count overflows the int index or a number has more than ten bytes |
| Decoders.DecodeBenchmark | stream-test-java/src/main/java/com/example/kafka/StreamSumBenchmark.java:129-137 | on every byte string the sum and position of the decoder that reads 0 at the end of the input; no return exactly where a count overflows the int index |
| Decoders.DecodeScala | stream-test-scala/src/main/scala/com/example/kafka/StreamSumApp.scala:114-124 | on every byte string the same sum and position over the read-ahead reader; no return exactly where a count overflows the int index |
| Decoders.DecodeStreamApp | stream-test-java/src/main/java/com/example/kafka/StreamSumApp.java:129-139 | on every byte string the sum and position of its decoder; no return exactly where the input ends early or a count overflows the int index |
| Decoders.DecodePython | stream-test-python/bin/processor.py:54-63 | the nested loops compute the decoder on unbounded integers, sum, position and exceptions |
| Decoders.SumGo | stream-test-go/cmd/processor/main.go:163-186 | the four loops written in place compute the checked decoder, sum, position and panics |
| Decoders.WriteGo | stream-test-go/cmd/processor/main.go:188-191 | the writing loop in place yields the encoding of the sum |
| Decoders.ProcessGo | stream-test-go/cmd/processor/main.go:163-191 | on every byte string the inlined program yields the bytes and position that the helper-based reference prescribes, or panics where that does |
| Decoders.SumRuby | stream-test-ruby/bin/processor.rb:39-80 | the four loops written in place compute the decoder on unbounded integers |
| Decoders.WriteRuby | stream-test-ruby/bin/processor.rb:82-94 | the one-byte fast path and the loop together yield the bytes of the helper encoder |
| Decoders.ProcessRuby | stream-test-ruby/bin/processor.rb:39-94 | on every byte string the inlined program yields the bytes and position that the helper-based reference prescribes, or raises where that does |
| EndToEnd.WriteRecord | stream-test-krafka/src/bin/producer.rs:36-42 | the producer's loop leaves exactly the record of its list in the reused buffer |
| EndToEnd.RecordDecodes | stream-test-krafka/src/bin/processor.rs:346-355 | every program reads the wrapped sum out of the record of a list, and C and the JVM programs have no outcome if and only if it has 2^31 items or more |
| EndToEnd.ProcessKrafka | stream-test-krafka/src/bin/processor.rs:347-357 | the krafka processor turns any byte string into the encoded sum, or panics, as specified |
| EndToEnd.ProcessSigned | stream-test-java/src/main/java/com/example/kafka/StreamSumBenchmark.java:126-140 | the four programs that compare signed words turn any byte string into the signed encoding of its sum, or fail, as specified |
| EndToEnd.ProcessC | stream-test-c/src/main.c:87-100 | the C program turns any byte string into the encoding of its sum through a buffer of 32 bytes, or fails, as specified |
| EndToEnd.ProcessPython | stream-test-python/bin/processor.py:53-65 | the Python program turns any byte string into its encoding of the sum, or raises, as specified |
| EndToEnd.EndToEnd | stream-test-krafka/src/bin/consumer.rs:6-22 | from the producer through any of the nine processors the consumer reads the true sum if and only if it fits an i64, or lies between -2^62 and 2^62 for the four signed encoders; through krafka, C and Go it always reads the sum modulo 2^64, whatever the partial sums did. From 2^31 items on, and only then, C and the JVM programs deliver nothing |
| EndToEnd.RunAll | stream-test-krafka/src/bin/producer.rs:35-44 | the programs' own loops, producer, any processor and consumer in a row, return the true sum on exactly that condition, and nothing exactly where an int index overflows |
| ConsumeLoop.DryExactly | stream-test-krafka/src/bin/processor.rs:316-330 | the count of empty polls reaches three if and only if three polls were empty with only failed polls between them |
| ConsumeLoop.Consume | stream-test-krafka/src/bin/processor.rs:307-363 | the loop ends at the first head where the counter has reached TOTAL, in the round of the third empty poll, or at a malformed record, having sent the results of exactly the records polled before, in order |
| ConsumeRuns.ConsumeIsRun | stream-test-krafka/src/bin/processor.rs:307-363 | however that loop ends, a worker of the pipeline comes to the same end, with the same results handed over, by steps that read the same counters and get the same polls |
| KrafkaPipeline.ReachableInv | stream-test-krafka/src/bin/processor.rs:239-370 | the invariant of the workers and the counter holds in every reachable state |
| KrafkaPipeline.OvershootBound | stream-test-krafka/src/bin/processor.rs:309-363 | the results handed to the channels never exceed the last whole batch below TOTAL, and so TOTAL - 1, plus W times (max_poll + 2 * window + batch - 1) |
| KrafkaPipeline.CodeOvershoot | stream-test-krafka/src/bin/processor.rs:239-264 | with the code's constants and eight workers that is 50,566,992 |
| KrafkaOvershoot.CodeOvershootExactly | stream-test-krafka/src/bin/processor.rs:239-309 | ... and some run with those constants and eight workers hands over exactly 50,566,992 results |
| KrafkaPipeline.CodeSteps | stream-test-krafka/src/bin/processor.rs:291-330 | a worker polls on at every counter reading below 50,000,000 and leaves from there on, leaves at the third empty poll, polls at most 50,000 records, hands over while the channel holds fewer than 10,000, sends while fewer than 10,000 are in flight, and publishes at the 1000th completion |
| KrafkaPipeline.CodeStates | stream-test-krafka/src/bin/processor.rs:239-291 | in every state the code can reach, poll, channel and window keep to those limits, a running task has published a multiple of 1000, and a worker leaves only at the target or after three empty polls |
| KrafkaOvershoot.OvershootExactly | stream-test-krafka/src/bin/processor.rs:273-330 | for every configuration and number of workers that bound is reached by some run, so no smaller one holds |
| KrafkaPipeline.BoundedBacklog | BENCHMARK_SUMMARY.md:22-36 | a worker never holds more than one poll, one channel and one window of records and results |
| KrafkaPipeline.Ledger | stream-test-krafka/src/bin/processor.rs:268-301 | in every state the results of the records consumed are, in order, the sends initiated and then the channel; initiated is in flight plus completed, completed is published plus local, and the counter is the sum of what was published |
| KrafkaPipeline.SelectNeverStuck | stream-test-krafka/src/bin/processor.rs:273-297 | the `select!` finds an arm enabled in every state in which the produce loop goes on, if and only if the window is not empty |
| KrafkaPipeline.SendNeverFails | stream-test-krafka/src/bin/processor.rs:358-360 | in no reachable state does `tx.send` find its receiver gone |
| KrafkaPipeline.Progress | stream-test-krafka/src/bin/processor.rs:273-366 | no deadlock: in a reachable state some worker can act if and only if some worker has not finished |
| KrafkaPipeline.DrainTerminates | stream-test-krafka/src/bin/processor.rs:273-301 | after `drop(tx)` every receive and completion lowers 2 * channel + in flight + (1 if open), and the loop is over exactly at zero |
| KrafkaPipeline.ShutdownBound | stream-test-krafka/src/bin/processor.rs:308-375 | every schedule from a reachable state ends, whatever the counter: it has no more steps than the workers have to do, and two for each failed poll; once the counter has reached TOTAL it ends within W * (6 + 3 * max_poll + 3 * window) steps |
| KrafkaPipeline.WholeRun | stream-test-krafka/src/bin/processor.rs:308-375 | from the start that is ten steps for each record and ten for each worker, and two for each failed poll, by way of the three-empty-polls exit where TOTAL is not reached |
| KrafkaPipeline.JoinedExactly | stream-test-krafka/src/bin/processor.rs:365-375 | after all joins every record polled was processed, every result sent in order, every send completed and counted, the counter is exactly their number, and each loop had its reason to end |
| KrafkaPipeline.PanicsLoseLittle | stream-test-krafka/src/bin/processor.rs:366-375 | when workers panicked, the counter misses at most a channel, a window and a local count for each of them |
| KrafkaOvershoot.PanicLossReached | stream-test-krafka/src/bin/processor.rs:268-297 | with one worker some run loses exactly that much |
| SendLoops.Pool.Push | stream-test-krafka/src/bin/processor.rs:163-165 | a push puts one more send in flight, at the end of the order |
| SendLoops.Pool.Next | stream-test-krafka/src/bin/processor.rs:169-174 | `next` completes one send, and yields none exactly if the pool is empty |
| SendLoops.Load | stream-test-krafka/src/bin/processor.rs:148-177 | the loader fills the window of WINDOW sends and never exceeds it, and before the flush it has sent every record in order and seen every send complete |
| SendLoops.ProduceTask.Receive | stream-test-krafka/src/bin/processor.rs:278-286 | the receiving arm sends the oldest buffer of the channel, or closes it exactly if it is empty |
| SendLoops.ProduceTask.CountCompleted | stream-test-krafka/src/bin/processor.rs:289-295 | a completion is counted locally, and the shared counter moves, by a whole batch, exactly when the local count completes one |
| SendLoops.ProduceTask.Drain | stream-test-krafka/src/bin/processor.rs:273-300 | after `drop(tx)` the loop ends with channel and pool empty, everything left sent in order, and the counter raised by exactly the sends not yet counted |
| SendOrder.RunInOrder | stream-test-krafka/src/bin/processor.rs:144-165 | on a FIFO ready queue every interleaving of pushes, wake-ups, polls and completions keeps the numbered futures a prefix of the pushed ones |
| SendOrder.PushOrder | stream-test-krafka/src/bin/processor.rs:268-288 | future k draws the k-th number, and has drawn it exactly if it was ever polled |
| SendOrder.OrderedExactly | docs/krafka-idempotent-producer-concurrency-safety.md:22-54 | the broker rejects nothing in any run, whatever the partitions, if and only if the futures share one ready queue and await nothing before `send` |
| SendOrder.AcceptedExactly | docs/krafka-idempotent-producer-concurrency-safety.md:25-33 | the broker accepts the numbered sends if and only if, on every partition, they are the first ones pushed to it, in order |
| SendOrder.OvertakingAcross | docs/krafka-idempotent-producer-concurrency-safety.md:25-54 | a send may draw its number before an earlier one if and only if they go to different partitions |
| SendOrder.PartitionOrder | stream-test-krafka/src/bin/processor.rs:144-165 | on the ready queue the sends of every partition draw 0, 1, 2, ... in the order they were pushed |
| SendOrder.NumberedOnce | stream-test-krafka/src/bin/processor.rs:144-174 | under any scheduler a future draws at most one number, has it exactly if it was polled more than `delay` times, and is queued at most once and never after it has finished |
| BatchedWorkers.CountsWholeBatches | stream-test-go/cmd/processor/main.go:204-208 | the counter is the sum of every worker's whole batches, less those on their way |
| BatchedWorkers.CounterLag | stream-test-python/bin/processor.py:67-71 | the counter never runs ahead of the records handled, and lags by at most a batch for each worker, by less while no addition is pending |
| BatchedWorkers.OvershootBound | stream-test-rust/src/bin/processor.rs:106-135 | the counter never exceeds TOTAL, rounded up to a batch, plus a batch for every worker but one, under both stop rules |
| BatchedOvershoot.OvershootExactly | stream-test-rust/src/bin/processor.rs:125-134 | for every configuration and number of workers that bound is reached by some run, under both stop rules |
| BatchedWorkers.PerRecordFinish | stream-test-c/src/main.c:80-105 | once all C workers have left, the counter lies between TOTAL and TOTAL + W - 1 |
| BatchedWorkers.TargetSeen | stream-test-go/cmd/processor/main.go:153-208 | after exactly TOTAL records the counter shows TOTAL if and only if every worker's share is a whole number of batches; otherwise no worker has stopped, and none ever stops or moves the counter in any run without a further record |
| BatchedWorkers.RemaindersHang | stream-test-rust/src/bin/processor.rs:125-134 | with any batch of two or more there is a run of two workers that have handled exactly TOTAL records and, without a further record, never stop afterwards |
| BatchedWorkers.LeavesExactly | stream-test-rust/src/bin/processor.rs:106-135 | a worker leaves at a check that finds TOTAL reached or, in Rust, by the addition that reaches it, and in no other way |
| BatchedWorkers.ShutdownBound | stream-test-c/src/main.c:80-105 | once the counter has reached TOTAL every schedule ends within three steps for each worker, or two where additions end a worker, whatever the polls return |
| BatchedWorkers.Progress | stream-test-python/bin/processor.py:48-50 | and it ends with all workers gone: some worker can go on without a further record if and only if some worker has not left |
| BenchmarkWorkers.OvershootBound | stream-test-java/src/main/java/com/example/kafka/StreamSumBenchmark.java:118-142 | the counter is the number of records handled, and never exceeds TOTAL + W - 1 however large the polls are |
| BenchmarkWorkers.Finish | stream-test-java/src/main/java/com/example/kafka/StreamSumBenchmark.java:118-166 | once all workers have left without an exception the counter lies between TOTAL and TOTAL + W - 1 |
| BenchmarkWorkers.PolledExactly | stream-test-java/src/main/java/com/example/kafka/StreamSumBenchmark.java:119-142 | every record polled is counted, skipped or still held by its worker; only the increment that meets TOTAL and an exception drop the rest of a poll |
| BenchmarkWorkers.AllThrown | stream-test-java/src/main/java/com/example/kafka/StreamSumBenchmark.java:118-151 | and it needs that premise: in some run every worker has polled records, thrown and released the latch with nothing counted |
| BenchmarkWorkers.EmptyPollLeaves | stream-test-java/src/main/java/com/example/kafka/StreamSumBenchmark.java:119-120 | a poll is a worker's last step if and only if it is empty and TOTAL is reached |
| BenchmarkWorkers.ShutdownBound | stream-test-java/src/main/java/com/example/kafka/StreamSumBenchmark.java:118-151 | once the counter has reached TOTAL, and with empty polls and no exceptions, every schedule ends within the records still held and two steps for each worker, with all workers gone |
| BenchmarkWorkers.OvershootExactly | stream-test-java/src/main/java/com/example/kafka/StreamSumBenchmark.java:142 | for every TOTAL and number of workers that bound is reached by some run |
| SharedCounter.ConservedExactly | stream-test-java/src/main/java/com/example/kafka/StreamSumApp.java:82-151 | reported, taken, shared and local counts add up to the records sent in every reachable state if and only if the updates are atomic or guarded |
| SharedCounter.HeldBack | stream-test-java/src/main/java/com/example/kafka/StreamSumApp.java:146-150 | a worker holds back what it has sent since its last whole batch, or that batch while the addition is under way; where workers do not look at the counter none leaves |
| SharedCounter.ReportTakes | stream-test-java/src/main/java/com/example/kafka/StreamSumApp.java:82-87 | a report that no worker interrupts raises the reported total by exactly the shared count and leaves the count at 0 |
| SharedCounter.ReportedExactly | stream-test-ruby/bin/producer.rb:23-33 | after it the reported total is what the workers have sent less what they hold back |
| SharedCounter.CanReport | stream-test-ruby/bin/producer.rb:23-33 | such a report can begin whenever the reporter is idle and the lock is free |
| SharedCounter.ShutdownBound | stream-test-python/bin/processor.py:48-71 | at the grain of the lock, too, every schedule ends within seven steps for each worker once the counter has reached TOTAL, or four with an atomic addition |
| SharedCounter.Progress | stream-test-python/bin/processor.py:67-71 | no deadlock: without a further record somebody can go on if and only if there is a reporter or some worker has not left |
| SharedCounter.LostUpdate | stream-test-ruby/bin/producer.rb:23-33 | without the mutex there is a run that loses a whole batch |
| SharedCounter.RefinesBatched | stream-test-python/bin/processor.py:67-71 | Python's lock, read, write and unlock refine the single atomic addition, so every bound of the batched protocol holds for it |

## Left out

- Codec.ReadBounded: what C does with a shift by 64 or more, which is undefined, is not described; nor is what its decoding loop does when the int index overflows.
- Blocks.DecodersAgree: says nothing of the sums of Go, krafka, Python and Ruby on records that do not fit, which may agree by chance.
- Blocks.KrafkaResyncs: gives a family of single records that are read right by coincidence; the exact statements are those for shapes and for a last sized block.
- Codec.WriteArray: the C expression `n << 1` of a negative number is taken to shift in two's complement.
- EndToEnd.RunAll: the lists come from the caller; the programs draw them at random.
- SendLoops.ProduceTask.Drain: starts where the sender is gone; before that the produce task is modelled by the steps of `KrafkaPipeline`.
- ConsumeLoop.Consume: `tx.send` is an append, since by `KrafkaPipeline.SendNeverFails` it never fails and the waiting for room is a matter of the interleaving.
- The `kafka-test-*` programs, which load schemas, call Avro libraries and log.
- Kafka and its client libraries: brokers, groups and rebalancing, compression, lingering, topic creation, and whether a send is delivered.
- That polls eventually return records and sends eventually complete.
- Failures to create clients, the start time stamp, progress printing, throughput figures and wall-clock time.
- The throughput count of the Ruby processor, which is local to its process.
- The remaining stream producers and consumers, whose codecs are copies of those modelled.
