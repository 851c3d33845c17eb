# CQL driver core in Dafny

A model of three pure pieces of a Go client driver for the Cassandra (CQL)
native protocol. All three work on immutable values, and the proofs are about
those values.

- **Wire values and frame header** (`protocol.dfy`, `bytes.dfy`). The 9-byte
  packed frame header is `version`, `flags`, `stream` (2 bytes), `opcode`,
  `length` (4 bytes), big-endian with no padding. A `String` is a uint16 length
  plus bytes. A `StringPair` holds two strings. A `StringMap` is a uint16
  counter plus ordered pairs. `MarshalBinary` serialises the map.
- **STARTUP request** (`sessions.dfy`). This is the protocol part of the
  session's `connect`: the body is the map `CQL_VERSION = 3.0.0`, the header's
  length field is the body size, and the request is the header followed by the
  body. The module also models the `SessionTimeout` option and how `connect`
  reads the response header and sizes the body buffer.
- **Cluster configuration** (`clusters.dfy`). `NewCluster` runs the default
  options and then the caller's options, in order, over the zero-valued record.

Go's fixed-width integers are subset types of `int` (`uint8`, `uint16`,
`uint32`). The conversions `uint16(len(..))` and `uint32(len(..))`, and the
`Num++` increment, wrap explicitly. A Go `string` is a byte sequence
(`GoString = seq<uint8>`), so `len` counts bytes. Functional options, which are
closures in Go, are a closed datatype with one constructor per option the
driver defines. Receiver-mutating methods (`AddPair`, `AddStringPair`) return
the updated value.

In a few places the driver departs from what the CQL protocol expects of a
well-formed frame. The model follows the code:
- Strings longer than 65535 bytes are not rejected. The stored length wraps
  modulo 2^16 (`NewString`, `AddPair`). The map holding such a string is
  written with the wrapped length, so its encoding misframes: a 65536-byte key
  is preceded by the length prefix 00 00 (`OversizedKeyMisframes`).
- The map's counter and the string lengths are stored fields that
  `MarshalBinary` writes as they are; it does not recompute them
  (`MarshalBinary`'s contract fixes every pair's bytes, stored lengths
  included).
- The stream id is an unsigned 16-bit field.
- `NewCluster` never fails, whatever the contact points are. The integration
  test `TestConnectToBadHosts` expects an error here, and the code never
  returns one.

The module `Protocol` contains a decoder for the string map (`ParseStringMap`
and its helpers). The driver has no decoder: its `UnmarshalBinary` is a stub.
The decoder exists only to prove that `MarshalBinary` is injective on
well-formed maps.

## Model

| member | source | states |
|---|---|---|
| Protocol.EncodeHeader | protocol.go:9-15 | The header is exactly 9 bytes: version, flags, 2-byte big-endian stream, opcode, 4-byte big-endian length, in declaration order with no padding. Decoding the bytes gives back the frame. |
| Protocol.DecodeHeader | session.go:82-87 | Reading a header succeeds exactly when at least 9 bytes are available. |
| Protocol.DecodeThenEncode | session.go:74-83 | Any 9 bytes that are read as a header are exactly the encoding of the header that results. |
| Protocol.HeaderBijection | protocol.go:9-15 | Two frames have the same encoding only if they are equal, and every 9-byte sequence encodes some frame. So header encoding is a bijection. |
| Protocol.NewString | protocol.go:22-27 | The bytes are kept unchanged. The stored length matches the byte count modulo 2^16. The string is well-formed exactly when it is at most 65535 bytes, and beyond that the length wraps with no rejection. |
| Protocol.AddPair | protocol.go:34-37 | Both key and value are overwritten from the arguments, whatever the pair held before: the bytes are the arguments and each stored length is the argument's byte count modulo 2^16. The pair is well-formed exactly when both arguments fit in 16-bit lengths. |
| Protocol.NewStringPair | protocol.go:39-43 | A new pair has key `NewString(key)` and value `NewString(value)`. |
| Protocol.AddStringPair | protocol.go:50-53 | The pair is appended at the end and earlier pairs stay unchanged and in order. The counter goes up by exactly 1 modulo 2^16. A consistent map stays consistent exactly while it holds at most 65535 pairs. |
| Protocol.FromPairsCounts | protocol.go:45-53 | Adding n pairs to the zero map keeps them in insertion order and sets the counter to n modulo 2^16. The map is consistent exactly when n < 65536. |
| Protocol.EncodePairs | protocol.go:64-71 | The pairs' encoding takes 4 bytes plus the key and value bytes for each pair. |
| Protocol.EncodePairsLayout | protocol.go:64-71 | Pair i is written, with its stored lengths, right after the encodings of the pairs before it. |
| Protocol.MarshalBinary | protocol.go:55-74 | For every map, well-formed or not: the output is the stored counter as 2 big-endian bytes, then, for each pair in order, at offset 2 plus the size of the pairs before it, the stored key length, the key bytes, the stored value length and the value bytes. The total length is 2 plus the sum of 4 + \|key\| + \|value\|. Stored fields are written, not recomputed. |
| Protocol.MarshalEmpty | protocol.go:57-73 | The empty map encodes to the two bytes 00 00. |
| Protocol.ParsePairsRoundTrip | protocol.go:64-71 | Well-formed pairs, encoded in order, decode back to the same pairs in the same order, leaving any trailing bytes untouched. |
| Protocol.MarshalRoundTrip | protocol.go:55-74 | Every well-formed map decodes back from its encoding, with any trailing bytes left over. A map with a stale counter or length never does, since a decoder only produces well-formed maps. |
| Protocol.MarshalInjective | protocol.go:55-74 | Two well-formed maps have the same encoding only if they are equal. |
| Protocol.OversizedKeyMisframes | protocol.go:22-27 | A pair built from a 65536-byte key has the stored key length 0, so the map holding it is written with 00 00 before the key. A decoder reads an empty key there, and the map does not decode back. |
| Clusters.Apply | cluster.go:15-31 | Each option writes its own field with its value, without validation or clamping, and leaves the other two fields unchanged. |
| Clusters.ApplyAll | cluster.go:55-57 | Running the options in order leaves every field that no option writes at its starting value. |
| Clusters.LastWriterWins | cluster.go:54-57 | After the options run in order, each field that some option writes holds the value of the last such option. |
| Clusters.ApplyAllAppend | cluster.go:54-57 | Running `xs ++ ys` is the same as running `xs` and then `ys`. The defaults followed by the caller's options form a plain concatenation. |
| Clusters.DistinctOptionsCommute | cluster.go:15-31 | Two adjacent options that write different fields can be swapped anywhere in an option list. |
| Clusters.RepeatedOptionIdempotent | cluster.go:15-31 | Applying the same option twice in a row is the same as applying it once. |
| Clusters.NewCluster | cluster.go:51-58 | Each field comes from the last caller option that writes it. Otherwise it has its default: port 9042, contact points ["127.0.0.1"], protocol version equal to the maximum supported version. The zero value never shows through. |
| Clusters.NewClusterDefaults | cluster.go:33-38 | With no options the cluster is (["127.0.0.1"], 9042, 4), and its version equals the maximum supported version. |
| Clusters.NewClusterSingleOption | cluster_test.go:11-28 | A single option, such as `Port(p)` or `ProtocolVersion(88)`, sets its field to exactly its argument and leaves every other field at its default. |
| Sessions.ApplySessionOption | session.go:17-21 | `SessionTimeout(t)` sets the timeout to t and leaves the protocol version unchanged. |
| Sessions.StartupBody | session.go:29-32 | The STARTUP body is a well-formed map with counter 1 and the single pair (CQL_VERSION, 3.0.0), with lengths 11 and 5. |
| Sessions.StartupHeader | session.go:40-41 | The STARTUP header is version 4, flags 0, stream 1, opcode 1. Its length field is the body's byte count, which is exact below 2^32 and otherwise matches modulo 2^32. |
| Sessions.SerializeRequest | session.go:49-60 | The request is 9 + \|body\| bytes. Its first 9 bytes decode to the header and the rest is the body verbatim. |
| Sessions.StartupRequest | session.go:29-60 | The request's header decodes to (4, 0, 1, 1, 22). The request is 9 + length bytes long, and the bytes after the header decode to the CQL_VERSION map. |
| Sessions.CqlVersionBytes | session.go:31 | The key and value are the ASCII bytes of "CQL_VERSION" and "3.0.0". |
| Sessions.StartupBodyBytes | session.go:29-33 | The body is the 22 bytes `00 01 00 0B "CQL_VERSION" 00 05 "3.0.0"`. |
| Sessions.StartupBytes | session.go:29-60 | The full request is 31 bytes: `04 00 00 01 01 00 00 00 16` followed by the body. |
| Sessions.ReadResponseHeader | session.go:74-100 | The response header is decoded from the 9-byte buffer: the bytes received, with the unfilled tail left zero. A body buffer is allocated only when the length field is positive, and its size is exactly that length. |

## Left out

- Sockets: `net.Dial`, `conn.Write`, `conn.Read` and `conn.Close` in `connect`. The model takes the bytes a read returned as a parameter (`ReadResponseHeader`), and leaves out the short-write check and the body read.
- The I/O error paths of `connect`: the short write that returns a nil error, and the decode and close failures that return nil. They concern I/O error handling, not the protocol.
- Logging (`log.Printf`): a side effect with no bearing on any value.
- `Session.Execute`, `Cluster.Connect`, `Cluster.Shutdown` and `StringMap.UnmarshalBinary`: stubs that return nil.
- Error results that are always nil: the error from `MarshalBinary` and from `NewCluster`. The model returns the value alone, and the dead error branch of `connect` after `MarshalBinary` is not modelled.
- The error sentinel values (`NoHostAvailableError` and the others, including the misspelt `WriteFailureErorr`). They are constants with no behaviour.
- Caller-written `ClusterOption` or `SessionOption` closures. Only the options the driver defines are modelled.
- The aliasing of `DefaultOptions` by `append`: the slice literal has equal length and capacity, so `append` copies. The model treats the operation as pure concatenation.
- Slice aliasing in general. Slices are modelled as immutable sequences, so the model does not represent sharing of their backing arrays, and its results hold only while no caller writes through a returned slice. Three cases are lost. The default contact-point slice at cluster.go:35 is one slice shared by every cluster built without a `ContactPoints` option, so writing an element of one such cluster's `ContactPoints` changes what later `NewCluster()` calls return. `ContactPoints(ps)` keeps the caller's slice, not a copy. The `append` in `AddStringPair` can overwrite the appended pair of another `StringMap` copy that shares a backing array with spare capacity.
- `cluster_integration_test.go`: it needs a live server.
