# A verified model of the vector-processing client

This project models the client of a small compute service. The client connects to a server over TCP and authenticates with a salted SHA-1 challenge. It then streams vectors of `double` values in a binary framing and collects one `double` result per vector. The repository holds two parallel implementations of that client, and both are modelled.

- **The class-based client**:
  - `ServerConnection` is the protocol engine: newline-terminated text lines, exact-length binary loops, and a per-vector exchange that polls without blocking and then falls back to a blocking read.
  - `Authenticator` covers hex rendering, salt generation and hex decoding.
  - `DataProcessor` reads, validates and encodes the vector set.
  - `Client` covers the command line, the configuration file and the order of `run`.
- **The `NetworkClient` variant**:
  - It runs the same handshake without newlines and reads the credential file as `login:password`.
  - It sends all vectors before it reads any result, the size and the values of each vector in one `send` each.
  - It reads and writes line-based text files.
  - It has a runtime byte-order probe.

The socket becomes a scripted peer, `Transport.Peer`:
- what arrives: chunks of octets, a moment with nothing to read, an orderly shutdown, or an error;
- how many octets each `send` accepts;
- a log of every octet handed to `send`.

Every operation on the socket is a function of that value. The classes hold the peer as a field. Their methods are proved to perform specification functions, and the properties of the protocol are proved as lemmas about those functions.

Wire data is a `seq<char>` holding one octet per element. A `double` is an opaque 8-octet image (`Wire.Float64`), moved exactly as the code moves it. SHA-1, the random draw, number parsing and number printing are parameters.

Modules, leaf first:
- `Outcomes`: `Option`, `Result`.
- `Wire`: u32 fields, value images, frames, and the encoder and decoder.
- `Strings`: hex digits, trimming, cutting, words, lines, decimals.
- `Transport`: the scripted socket.
- `Authenticator`: `Authenticator.cpp`.
- `Connection`: `ServerConnection.cpp`.
- `Vectors`: `DataProcessor.cpp`.
- `ClientApp`: `Client.cpp`.
- `NetCommon`: the helpers of `client.cpp` and the exceptions of `NetworkClient`.
- `NetAuth`: `client_auth.cpp`.
- `NetIO`: `client_network.cpp`.
- `NetClient`: the `NetworkClient` class and its `run`.

Behaviour of the code worth knowing:
- `sendText` makes one `send` call, with no loop over partial writes. It fails unless the whole line was taken.
- `authenticate` checks only the salt's length, never that it is hexadecimal.
- `NetworkClient::send_vectors` throws on a vector with no values. A zero-length `send` returns 0.
- A run of `Client` that fails after connecting ends the process through `exitWithError`. The socket is therefore never closed by the code that follows.

## Model

| member | source | states |
|---|---|---|
| Wire.ToU32 | client/DataProcessor.cpp:80 | the `uint32_t` cast of a count is the count itself whenever it is below 2^32 |
| Wire.EncodeU32 | client/DataProcessor.cpp:80-82 | a count field is 4 octets, each below 256, that decode back to the count (little-endian host) |
| Wire.Images | client/DataProcessor.cpp:96-100 | the raw value bytes are 8 octets per value |
| Wire.ImagesAt | client/DataProcessor.cpp:96-100 | octet `k` of value `i` sits at offset `8i+k` |
| Wire.ImagesAppend | client/DataProcessor.cpp:96-100 | the images of two value runs are the two image runs concatenated |
| Wire.ImagesToValues | client/DataProcessor.cpp:96-100 | any whole number of 8-octet images splits into values whose images are those octets |
| Wire.ImagesInjective | client/DataProcessor.cpp:96-100 | equal images mean equal value sequences (bit patterns are kept) |
| Wire.ValuesOfImages | client/DataProcessor.cpp:96-100 | splitting the images of a value run gives the run back |
| Wire.Frame | client/DataProcessor.cpp:89-100 | a vector frame is `4 + 8·len` octets |
| Wire.FramesAppend | client/DataProcessor.cpp:85-101 | the frames of two vector runs are the two frame runs concatenated |
| Wire.EncodeLength | client/DataProcessor.cpp:80-101 | the encoded set has length `4 + Σ(4 + 8·len v)` |
| Wire.FramesLength | client/DataProcessor.cpp:85-101 | the frames alone are 4 octets shorter than the encoded set |
| Wire.DecodeFramesOfFrames | client/DataProcessor.cpp:85-101 | decoding the frames of vectors whose sizes fit 32 bits gives the vectors and leaves what follows |
| Wire.DecodeEncode | client/DataProcessor.cpp:80-101 | decoding the encoded set reproduces the count, every size and every value's bit pattern |
| Transport.Send | client/ServerConnection.cpp:215 | one `send`: an empty buffer returns 0 and changes nothing; otherwise -1, or 1..len with exactly that prefix appended to the wire; inbound is untouched |
| Transport.Recv | client/ServerConnection.cpp:319-331 | one `recv`: any octets returned number 1..max; the wire and send script are untouched; only `MSG_DONTWAIT` can report "would block" |
| Transport.RecvStream | client/ServerConnection.cpp:319-331 | `recv` takes its octets from the front of the stream; 0 or an error come only from an ended stream; a short `MSG_WAITALL` read means the stream ended |
| Transport.WaitAllFills | client/ServerConnection.cpp:331 | with at least `max` octets still to come, a `MSG_WAITALL` read returns exactly the next `max` |
| Transport.UnpluggedFails | client/ServerConnection.cpp:102-126 | on a closed or unconnected socket, a `send` of some octets and a `recv` both return -1 and change nothing |
| Strings.LowerHexDigit | client/Authenticator.cpp:17-18 | `std::hex` prints a nibble as a lower-case hex digit whose value is the nibble |
| Strings.HexByte | client/Authenticator.cpp:17-18 | one octet prints as exactly two characters |
| Strings.ToUpper | client/Authenticator.cpp:23-24 | upper-casing keeps the length |
| Strings.UpperHexDigitOf | client/Authenticator.cpp:23-24 | an upper-cased printed nibble is an upper-case hex digit of the same value |
| Strings.RenderHex | client/Authenticator.cpp:15-19 | the zero-padded rendering of `n` octets has `2n` characters |
| Strings.RenderHexAt | client/Authenticator.cpp:16-19 | characters `2i`, `2i+1` are the high and low nibble of octet `i` |
| Strings.TrimLeft | client/client_auth.cpp:30 | `erase(0, find_first_not_of)`: a suffix whose dropped front is all trim characters and whose first character is not one |
| Strings.TrimRight | client/client_auth.cpp:31 | `erase(find_last_not_of + 1)`: a prefix whose dropped tail is all trim characters and whose last character is not one |
| Strings.Trim | client/Client.cpp:68-71 | the trimmed line neither starts nor ends with a trim character |
| Strings.TrimSlice | client/Client.cpp:68-71 | the trimmed line is the slice between an all-blank front and an all-blank tail |
| Strings.TrimEmpty | client/Client.cpp:68-71 | the trimmed line is empty exactly when the line is all blank |
| Strings.CutAt | client/ServerConnection.cpp:128-134 | reading a buffer as a C string (or cutting at `'\n'`) gives a prefix without that character, ending right before its first occurrence |
| Strings.Decimal | client/client_network.cpp:149 | a count prints as decimal digits with a leading `0` only for zero |
| Strings.DecimalRoundTrip | client/client_network.cpp:149 | the printed count reads back as the count |
| Strings.WordAt | client/client_network.cpp:24-25 | `>>` takes a leading word: a prefix with no white space, not empty when the text starts with a non-space |
| Strings.Words | client/client_network.cpp:48-54 | the words `>>` extracts in turn are all non-empty |
| Strings.WordsAppend | client/client_network.cpp:150-152 | texts joined at white space have the words of the first followed by the words of the second |
| Authenticator.ComputeHash | client/Authenticator.cpp:10-27 | `computeHash` is 40 characters, each an upper-case hex digit |
| Authenticator.ComputeHashDigits | client/Authenticator.cpp:15-19 | digit pair `k` of the hash reads as octet `k` of SHA-1(salt + password) |
| Authenticator.ComputeHashOfConcatenation | client/Authenticator.cpp:10-13 | the hash depends only on `salt + password` |
| Authenticator.PaddedHex | client/Authenticator.cpp:37 | `setw(w) << setfill('0') << hex` of a value below 16^w is exactly `w` characters |
| Authenticator.UpperPaddedHex | client/Authenticator.cpp:36-42 | the upper-cased padded rendering is all upper-case hex digits and reads back as the value |
| Authenticator.GenerateSalt | client/Authenticator.cpp:29-45 | a salt is 16 characters for any 64-bit draw |
| Authenticator.GenerateSaltReadsBack | client/Authenticator.cpp:29-45 | the 16 salt characters are upper-case hex digits and read back in base 16 as the draw |
| Authenticator.StrtolHex | client/Authenticator.cpp:51 | `strtol(piece, nullptr, 16)` of a 1- or 2-character piece lies in -15..255 |
| Authenticator.OctetOf | client/Authenticator.cpp:51 | the `char` cast keeps the value modulo 256 |
| Authenticator.PieceAt | client/Authenticator.cpp:50 | `substr(i, 2)` yields 1 or 2 characters |
| Authenticator.HexToString | client/Authenticator.cpp:47-55 | the loop yields `ceil(len/2)` octets, piece `k` decoded from characters `2k`, `2k+1` (the last alone for an odd length) |
| Authenticator.DecodeHexPairAt | client/Authenticator.cpp:49-52 | a pair of hex digits decodes to their base-16 value |
| Authenticator.DecodeRenderedHex | client/Authenticator.cpp:47-55 | decoding the two-digit rendering of any octets, lower or upper case, gives the octets back |
| Authenticator.DecodeComputeHash | client/Authenticator.cpp:10-27 | decoding `computeHash` gives the raw SHA-1 digest |
| Authenticator.DecodeHexConcat | client/Authenticator.cpp:47-55 | decoding distributes over a concatenation whose first part has even length |
| Authenticator.DecodeHexExamples | client/Authenticator.cpp:47-55 | `"48656C6C6F"` decodes to `"Hello"` and `""` to `""` |
| Vectors.ValuesAt | client/DataProcessor.cpp:39-47 | the values read are exactly `size` many, value `j` parsed from word `pos + j` |
| Vectors.ReadFromShape | client/DataProcessor.cpp:27-52 | the vector loop keeps what it had, appends exactly `n` vectors on success (fewer when it stops at the exit), and appends only non-empty vectors |
| Vectors.ReadIsValid | client/DataProcessor.cpp:16-49 | a successful read holds as many vectors as the first token declares, every one non-empty, so `validateData` holds |
| Vectors.ReadRejectsCount | client/DataProcessor.cpp:10-22 | a file that does not open, or whose count is missing, unreadable or 0, fails (the process exits) before `vectors` is cleared |
| Vectors.ReadFromLayout | client/DataProcessor.cpp:27-52 | the tokens of non-empty vectors laid out as size then values read back as exactly those vectors |
| Vectors.ReadLayout | client/DataProcessor.cpp:9-56 | a file laid out as count, then sizes and values, reads back as exactly that valid vector set, replacing earlier contents |
| Vectors.DataProcessor.GetVectorsCount | client/DataProcessor.h:64 | `getVectorsCount() == getVectors().size()` |
| Vectors.DataProcessor.ReadVectorsFromFile | client/DataProcessor.cpp:9-56 | the nested token loops perform `ReadVectors` on the file and the old `vectors` |
| Vectors.ReadValues | client/DataProcessor.cpp:39-47 | the inner loop yields a vector exactly when `size` value tokens from `pos` on all read, and then it holds those values in order |
| Vectors.DataProcessor.ValidateData | client/DataProcessor.cpp:58-72 | true iff there is a vector and every vector is non-empty |
| Vectors.DataProcessor.ConvertToBinary | client/DataProcessor.cpp:74-106 | the byte buffer built by the loops is the encoded set |
| Vectors.AppendImages | client/DataProcessor.cpp:96-100 | the inner loop appends the 8 octets of every value, in order |
| Connection.HtonllReverses | client/ServerConnection.cpp:27-29 | on a little-endian host `htonll` reverses all eight octets |
| Connection.Reverse64Involution | client/ServerConnection.cpp:27-38 | reversing the octets twice gives the value back |
| Connection.NtohllHtonll | client/ServerConnection.cpp:27-38 | `ntohll(htonll(x)) == x` |
| Connection.SendLine | client/ServerConnection.cpp:102-112 | `sendText` succeeds only when the single `send` took all of `text + "\n"`; either way the wire grows by a prefix of that line |
| Connection.ReceiveLine | client/ServerConnection.cpp:119-137 | `receiveText` fails exactly when its one `recv` of at most 1023 octets returns no octets; otherwise the text is the received octets up to their first NUL or newline, whichever comes first |
| Connection.ReceiveLineStream | client/ServerConnection.cpp:119-137 | a received line is a prefix of what was still to arrive; a failed one consumed nothing |
| Connection.SendAll | client/ServerConnection.cpp:210-224 | on success all of `data` reached the wire in order; on failure a proper prefix did |
| Connection.SendAllSteps | client/ServerConnection.cpp:214-221 | the first send returning 0 or -1 ends the loop with false; a partial send is continued with the octets not yet sent |
| Connection.SendAllSucceeds | client/ServerConnection.cpp:210-224 | `sendBinaryData` succeeds iff the next sends of the socket each accept some octets until all of `data` is out, and then the wire holds all of it |
| Connection.SendAllDelivers | client/ServerConnection.cpp:214-221 | sends that each accept octets and together accept all of `data` make the loop succeed, partial sends included |
| Connection.SendAllAccepted | client/ServerConnection.cpp:214-221 | a loop that succeeded used sends that each accepted octets and together accepted all of `data` |
| Connection.ReceiveAll | client/ServerConnection.cpp:232-246 | `receiveBinaryData` succeeds iff exactly `size` octets were gathered; never more |
| Connection.ReceiveAllStream | client/ServerConnection.cpp:232-246 | the octets gathered are the front of the stream, in order; a failure means the stream ended |
| Connection.ReceiveAllExact | client/ServerConnection.cpp:232-246 | it succeeds iff at least `size` octets are still to come, and then returns exactly the first `size` |
| Connection.SendFrame | client/ServerConnection.cpp:282-312 | a vector's size and (when non-empty) its values reach the wire in order, or a prefix of them does |
| Connection.AwaitResult | client/ServerConnection.cpp:316-342 | waiting for a reply only reads: the wire and the send script are left alone |
| Connection.AwaitResultCases | client/ServerConnection.cpp:316-342 | the reply table: 8 octets are taken; nothing yet is followed by a blocking read of exactly 8; a short read, a shutdown or an error fail |
| Connection.AwaitResultStream | client/ServerConnection.cpp:316-342 | a result taken is the next 8 octets of the stream |
| Connection.VectorStep | client/ServerConnection.cpp:280-343 | a vector's turn sends at most its frame and, when it yields a result, the whole frame |
| Connection.VectorStepWhole | client/ServerConnection.cpp:281-341 | on a socket that takes the size and the values whole and has an 8-octet result ready, a turn sends the whole frame and yields that result |
| Connection.ExchangeWhole | client/ServerConnection.cpp:280-343 | on such a socket the loop succeeds, sends every frame in order and returns the 8-octet chunks as its results |
| Connection.SendVectorsWhole | client/ServerConnection.cpp:260-347 | `sendVectors` on a socket that takes every send whole and answers each vector with 8 octets returns true, leaves the encoded set on the wire and returns the chunks as results |
| Connection.VectorStepStream | client/ServerConnection.cpp:280-343 | the result of a turn is the next 8 octets of the stream |
| Connection.HandshakeLines | client/ServerConnection.cpp:151-186 | after the login line, a salt of `"ERR"` or of length other than 16 fails with nothing more sent; success sent exactly the login line and the `computeHash` line |
| Connection.HandshakeStatus | client/ServerConnection.cpp:180-201 | past an accepted salt, `authenticate` returns true iff the hash line went out whole and the status line is exactly `"OK"` |
| Connection.HandshakeWithServer | client/ServerConnection.cpp:151-202 | against a server sending a 16-character salt line and a status line, it succeeds iff the status is `"OK"`, having sent `login\n` and `hash\n` |
| Connection.ExchangeCount | client/ServerConnection.cpp:280-343 | the loop yields at most one result per vector, and all of them iff it succeeds |
| Connection.ExchangeResults | client/ServerConnection.cpp:280-343 | the results are the front of the stream in arrival order, and on success exactly what arrived before the rest |
| Connection.ExchangeFramesSent | client/ServerConnection.cpp:280-343 | on success the wire holds every frame in vector order |
| Connection.ExchangeFramesBefore | client/ServerConnection.cpp:280-343 | on failure the frames of every vector with a result went out whole |
| Connection.ExchangeFramesAfter | client/ServerConnection.cpp:280-343 | on failure nothing beyond the failing vector's frame was sent: no frame goes out before the previous reply was handled |
| Connection.SentFramesAreFrames | client/ServerConnection.cpp:282-311 | what `sendVectors` sends per vector is the frame `convertToBinary` lays out |
| Connection.SendVectorsDelivers | client/ServerConnection.cpp:260-347 | success sent the count then every frame, holds one result per vector, and the results are the stream's front |
| Connection.SendVectorsEncodes | client/ServerConnection.cpp:260-347 | on success the octets sent are `convertToBinary` of the set and decode back to it |
| Connection.SendVectorsFailure | client/ServerConnection.cpp:260-347 | on failure the results are a proper prefix, and the wire holds no more than the count and the frames up to the failing vector |
| Connection.CloseEffect | client/ServerConnection.cpp:352-358 | closing releases a descriptor >= 0 once and leaves -1; a negative one is left alone |
| Connection.CloseIdempotent | client/ServerConnection.cpp:352-358 | a second `closeConnection` changes nothing |
| Connection.Place | client/ServerConnection.cpp:237 | `recv` into `dataPtr + totalReceived` writes the octets there and leaves the rest of the buffer |
| Connection.ServerConnection.constructor | client/ServerConnection.cpp:55 | a new connection has descriptor -1, has closed nothing, and its socket takes no data |
| Connection.ServerConnection.EstablishConnection | client/ServerConnection.cpp:71-95 | the descriptor from `socket` is kept even when a later step fails; true iff socket, address and connect all succeed; after a failure the socket takes no data, whatever was connected before |
| Connection.ServerConnection.CloseConnection | client/ServerConnection.cpp:352-358 | performs `CloseEffect` on the descriptor; closing an open descriptor leaves a socket that takes no data, with the wire as it was |
| Connection.UnpluggedSteps | client/ServerConnection.cpp:102-137 | on a closed or unconnected socket `sendText`, `receiveText`, the handshake and the binary loops all fail and send nothing |
| Connection.ServerConnection.SendText | client/ServerConnection.cpp:102-112 | performs `SendLine` on the socket |
| Connection.ServerConnection.ReceiveText | client/ServerConnection.cpp:119-137 | performs `ReceiveLine` on the socket: the received octets up to the first NUL or newline, or failure when no octets came |
| Connection.ServerConnection.Authenticate | client/ServerConnection.cpp:151-202 | stores the credentials and performs the handshake |
| Connection.ServerConnection.SendBinaryData | client/ServerConnection.cpp:210-224 | the `totalSent` loop performs `SendAll`: it continues partial sends and stops at the first send <= 0 |
| Connection.ServerConnection.ReceiveBinaryData | client/ServerConnection.cpp:232-246 | the `totalReceived` loop performs `ReceiveAll`, leaving the octets gathered at the front of the buffer |
| Connection.ServerConnection.ExchangeVector | client/ServerConnection.cpp:280-343 | one pass of the vector loop performs `VectorStep` |
| Connection.ServerConnection.SendVectors | client/ServerConnection.cpp:260-347 | clears the results, sends the count and performs the exchange loop |
| Connection.ServerConnection.ExchangeVectors | client/ServerConnection.cpp:280-343 | the for-loop pushes each result in order and stops at the first failure |
| ClientApp.ScanAccepts | client/Client.cpp:26-39 | the option loop accepts iff every option is `-p N` with a readable port or `-c F` |
| ClientApp.ScanSettings | client/Client.cpp:26-39 | the last `-p` sets the port and the last `-c` the config file; nothing else changes |
| ClientApp.ParseArgsMeaning | client/Client.cpp:14-42 | fewer than 4 arguments return false unchanged; otherwise arguments 1..3 are address, input and output, and the options act as above |
| ClientApp.DefaultConfigPath | client/Client.cpp:46-53 | the default `"~/.config/velient.conf"` expands to `home + "/.config/velient.conf"` |
| ClientApp.NextEntry | client/Client.cpp:66-77 | a line found lies in the range searched |
| ClientApp.NextEntryFirst | client/Client.cpp:66-77 | the line found is the first non-blank, non-comment line; none exists when none is found |
| ClientApp.Entries | client/Client.cpp:66-96 | every entry is non-empty, does not start with `#` and has no surrounding blanks |
| ClientApp.NextEntryEntries | client/Client.cpp:66-96 | scanning from a line finds the first of the remaining entries |
| ClientApp.ReadConfigMeaning | client/Client.cpp:44-109 | the path is expanded; success iff the file opens and has two entries, which become login and password; on failure they are not assigned |
| ClientApp.CredentialsEntries | client/Client.cpp:64-104 | the login and password are the first two entries |
| ClientApp.ReadEntry | client/Client.cpp:66-77 | one `getline` loop returns the first entry from a line on, trimmed, and where to go on |
| ClientApp.SessionOrder | client/Client.cpp:136-179 | the session steps come in order; only a completed session closes the socket |
| ClientApp.RunOrder | client/Client.cpp:111-179 | the steps run in the fixed order and the first failure ends the run |
| ClientApp.SessionCompleted | client/Client.cpp:136-179 | a completed session authenticated, got one result per vector (so the count warning never fires) and sent the encoded set |
| ClientApp.RunCompleted | client/Client.cpp:111-179 | a completed run read a valid set, authenticated, got one result per vector and closed its socket once |
| ClientApp.Client.constructor | client/Client.cpp:12 | a new client holds the default configuration |
| ClientApp.Client.ParseCommandLineArgs | client/Client.cpp:14-42 | the loop performs `ParseArgs` on the configuration |
| ClientApp.Client.ReadConfigFile | client/Client.cpp:44-109 | the two scanning loops perform `ReadConfig` |
| ClientApp.Client.Run | client/Client.cpp:111-179 | performs `RunSpec` |
| NetCommon.ProbeByte | client/client.cpp:34-39 | the first octet of `0x01020304` is 1 exactly on a big-endian host |
| NetCommon.HostHtonllCases | client/client.cpp:33-44 | `htonll` is the identity on a big-endian host and a full 8-octet reversal on a little-endian one |
| NetCommon.HostNtohllHtonll | client/client.cpp:46-48 | `ntohll(htonll(x)) == x` on either host |
| NetCommon.Sha1Hash | client/client.cpp:50-59 | `sha1_hash` is 40 characters |
| NetCommon.Sha1HashDigits | client/client.cpp:50-59 | they are lower-case hex digits, pair `k` spelling digest octet `k` |
| NetClient.DefaultAuthPath | client/client_auth.cpp:11-17 | the default `"~/.config/velient.conf"` opens as `home + "/.config/velient.conf"` when `HOME` is set, and under its own name otherwise |
| NetAuth.ReadCredentials | client/client_auth.cpp:10-40 | the only exceptions are the missing-file error and the format error |
| NetAuth.ReadCredentialsMeaning | client/client_auth.cpp:24-39 | the format fails iff line 1 or 2 is all white space; otherwise the result is the trimmed login, `:`, the trimmed password, both non-empty and unpadded |
| NetAuth.ReadCredentialsSpaced | client/client_auth.cpp:25-39 | `"  testuser  \n  testpass  \n"` gives `"testuser:testpass"` |
| NetAuth.ReadCredentialsRejects | client/client_auth.cpp:19-37 | `"\n\n"` throws the format error; a missing file throws the open error |
| NetAuth.SplitAtColon | client/client_auth.cpp:44-50 | no `:` fails; otherwise the login has no `:` and login + `:` + password is the input |
| NetAuth.SplitJoin | client/client_auth.cpp:44-50 | splitting `login:password` gives the pair back whenever the login has no `:`, even when the password has one |
| NetAuth.RawReply | client/client_auth.cpp:58-65 | a reply exists exactly when the one `recv` returned octets; it is the prefix of those octets that ends at the first NUL or at their end, at most 255 octets, with no newline stripping |
| NetAuth.NetHandshake | client/client_auth.cpp:44-104 | the handshake only appends to the wire, and every exception it throws is one of `authenticate`'s |
| NetAuth.NetAuthenticate | client/client_auth.cpp:42-105 | the same, with the credential file read first |
| NetAuth.HashExchange | client/client_auth.cpp:87-104 | sending the hash and reading the status only appends to the wire and throws only `authenticate`'s exceptions |
| NetAuth.UpperSha1IsComputeHash | client/client_auth.cpp:78-83 | the upper-cased `sha1_hash` of salt + password is the class-based `computeHash`, 40 characters |
| NetAuth.NetHandshakeSends | client/client_auth.cpp:54-104 | a salt of `"ERR"` or of length other than 16 throws with only (a prefix of) the login sent; success means each `send` took at least one octet, the wire holds what was taken of the login then of the upper-case hash, with no newline, and the status read was `"OK"` |
| NetAuth.NetHandshakeStatus | client/client_auth.cpp:87-104 | for any socket, once the login, an accepted salt and the hash went out, `authenticate` returns true exactly when the status reply is `"OK"`, and any other reply throws `AuthFailed` |
| NetAuth.NetHandshakeWithServer | client/client_auth.cpp:42-105 | against a server sending a 16-character salt and a status, it succeeds iff the status is `"OK"`, throws `AuthFailed` otherwise, having sent exactly login + hash |
| NetIO.ReadVector | client/client_network.cpp:32-61 | every exception of one vector's read is one of `read_input_file`'s |
| NetIO.VectorsFrom | client/client_network.cpp:31-63 | the same for the outer loop |
| NetIO.ParseInput | client/client_network.cpp:10-67 | the same for the whole read |
| NetIO.ValuesFromMeaning | client/client_network.cpp:49-59 | the inner loop reads exactly the first `size` words when all are readable; otherwise it throws at the first missing or unreadable one |
| NetIO.VectorsFromShape | client/client_network.cpp:31-63 | success appends exactly the declared number of vectors, each what its two lines read as |
| NetIO.ParseInputShape | client/client_network.cpp:10-67 | success means the first line declares the number of vectors; vector `i` has the size line `2i+1` declares and the first values of line `2i+2`, extra words ignored |
| NetIO.VectorLines | client/client_network.cpp:31-63 | vector `i` of the outer loop has the size that line `2i+1` declares and the first values of line `2i+2` |
| NetIO.ParseInputRejectsCount | client/client_network.cpp:11-27 | a file that does not open, is empty or whose first line does not read as a count throws before any vector |
| NetIO.NotANumber | client/client_network.cpp:24-27 | a count line `"not_a_number"` throws the count-format error |
| NetIO.BadCountLine | client/client_network.cpp:20-27 | a first line holding one word that does not read as a count throws the count-format error |
| NetIO.VectorsFromLayout | client/client_network.cpp:31-63 | lines laid out as size then values read back as exactly those vectors |
| NetIO.ParseInputLayout | client/client_network.cpp:10-67 | a file laid out as a count line then size and values lines reads back as exactly that vector set |
| NetIO.SendVectorsFrom | client/client_network.cpp:101-118 | the loop only appends to the wire, and throws only its own send errors |
| NetIO.NetSendVectors | client/client_network.cpp:91-121 | the same for the whole of `send_vectors` |
| NetIO.SendVectorsFromEmpty | client/client_network.cpp:113-115 | the loop throws at the latest at a vector with no values |
| NetIO.SendVectorsEmptyThrows | client/client_network.cpp:113-115 | `send_vectors` throws whenever the set holds an empty vector |
| NetIO.SendVectorsFromWhole | client/client_network.cpp:101-118 | with every send taken whole, the loop sends every frame in order |
| NetIO.SendVectorsWhole | client/client_network.cpp:91-121 | with every send taken whole, the octets sent are exactly the encoded set |
| NetIO.SendVectorsShortCount | client/client_network.cpp:93-97 | a count send that takes one octet of four goes unnoticed: success, with three count octets missing from the wire |
| NetIO.Fill | client/client_network.cpp:129-130 | a short `recv` overwrites the front of the result variable with the octets received; the octets after them keep their stale value |
| NetIO.ReceiveFrom | client/client_network.cpp:128-138 | the loop leaves the wire alone and throws only `NoResult` |
| NetIO.ReceiveFromCount | client/client_network.cpp:123-141 | either exactly `n` results or an exception at result `i` in 1..n, and then only because the stream ended |
| NetIO.ReceiveFromChunks | client/client_network.cpp:128-138 | results arriving as 8-octet chunks come out in arrival order |
| NetIO.ReceiveShortResult | client/client_network.cpp:129-136 | a 3-octet reply is taken as a result whose last five octets are stale |
| NetIO.SavedTextWords | client/client_network.cpp:149-152 | the saved text reads as the count, which reads back as the number of results, then the printed results in order |
| NetIO.SavedTailWords | client/client_network.cpp:150-152 | the `" " << r` part reads as the printed results in order |
| NetIO.SavedTextExamples | client/client_network.cpp:149-152 | no results save as `"0"`; three as `"3 a b c"` |
| NetClient.ConnectOutcome | client/client_network.cpp:69-89 | `connect_to_server` returns iff socket, address and connect all succeed, and throws only its own errors, `SocketFailed` first |
| NetClient.CollectedOrder | client/client.cpp:73-77 | from the receive step on, the report has the shape of a run |
| NetClient.DeliveredOrder | client/client.cpp:72-77 | from the send step on, the same |
| NetClient.ExchangedOrder | client/client.cpp:71-77 | from the read step on, the same |
| NetClient.RunOrder | client/client.cpp:61-83 | the steps are a prefix of connect, authenticate, read, send, receive, save; `run` returns true iff nothing was thrown, and then all ran and the file was written; an exception comes from the last step started |
| NetClient.RunCompleted | client/client.cpp:61-83 | a run returning true authenticated first and read the input file's vectors, fewer than 2^32 and none empty; it received one result per vector and saved the count and the results |
| NetClient.CollectedCompleted | client/client.cpp:73-77 | from the receive step on, a run returning true got one result per vector and saved them |
| NetClient.DeliveredCompleted | client/client.cpp:72-77 | from the send step on, a run returning true also sent no empty vector |
| NetClient.ExchangedCompleted | client/client.cpp:71-77 | from the read step on, a run returning true also read exactly the input file's vectors |
| NetClient.ParseInputCount | client/client_network.cpp:19-31 | a successful read holds fewer than 2^32 vectors, so `receive_results(vectors.size())` asks for all of them |
| NetClient.RunUnconnected | client/client_network.cpp:69-85 | a failed connect ends the run before the server is reached; a failed `socket` throws `SocketFailed` |
| NetClient.NetworkClient.constructor | client/client.cpp:14-17 | a new client has `sock == -1`, a socket that takes no data, and keeps its address, port and three file names |
| NetClient.NetworkClient.Destroy | client/client.cpp:19-23 | the destructor closes the socket exactly when `sock != -1` |
| NetClient.NetworkClient.SendData | client/client.cpp:25-27 | one `send` on the socket |
| NetClient.NetworkClient.ReceiveData | client/client.cpp:29-31 | one `recv` on the socket |
| NetClient.NetworkClient.ConnectToServer | client/client_network.cpp:69-89 | keeps the descriptor and performs `ConnectOutcome`; only a full success reaches the server, and after a failure the socket takes no data |
| NetClient.NetworkClient.Authenticate | client/client_auth.cpp:42-105 | performs `NetAuthenticate` on the socket |
| NetClient.NetworkClient.Handshake | client/client_auth.cpp:44-104 | the split, the login, the salt and the rest perform `NetHandshake` |
| NetClient.NetworkClient.SendHash | client/client_auth.cpp:87-104 | the hash send and the status read perform `HashExchange` |
| NetClient.NetworkClient.ReadInputFile | client/client_network.cpp:10-67 | the nested loops perform `ParseInput` on the input file |
| NetClient.ReadInputVectors | client/client_network.cpp:31-63 | the outer loop performs `VectorsFrom` from line 1 |
| NetClient.ReadVectorAt | client/client_network.cpp:32-61 | one pass of the outer loop, with the inner loop, performs `ReadVector` |
| NetClient.NetworkClient.SendVectors | client/client_network.cpp:91-121 | the count send and the loop perform `NetSendVectors` |
| NetClient.NetworkClient.ReceiveResults | client/client_network.cpp:123-141 | the loop performs `NetReceiveResults` |
| NetClient.NetworkClient.SaveResults | client/client_network.cpp:143-159 | throws iff the file cannot be created; otherwise writes the count followed by `" " << r` per result |
| NetClient.NetworkClient.Run | client/client.cpp:61-83 | performs `RunSpec` on the object's settings and leaves the socket as reported |

## Left out

- Sockets:
  - `socket`, `inet_pton` and `connect` are parameters: the descriptor, whether the address parses, and whether the connection is made;
  - timing (`usleep(1000)`) is not modelled; the scripted peer decides what has arrived at each `recv`;
  - a stream socket may merge chunks; the script fixes each `recv`'s result instead.
- SHA-1 (OpenSSL) is an uninterpreted function returning 20 octets. The `random_device`/`mt19937_64` draw of `generateSalt` is a parameter.
- Floating point:
  - doubles are opaque 8-octet images;
  - decimal parsing of `double` (and of `size_t`/`uint32_t` tokens) is a parser parameter;
  - `operator<<` of a `double` is a formatter parameter.
- Files and the environment:
  - what a path opens to is a parameter, as are `getenv("HOME")`/`getpwuid` and `std::stoi`;
  - an `stoi` exception is modelled as the `Aborted` outcome of `Client::run`.
- `Vectors.ReadVectors` and `NetIO.ParseInput` read numbers as whole words separated by white space. Input in which `>>` would split a word into several extractions is read differently by the code: `"1.5-2.5"` as two values, or `"3.0"` as a size followed by the value `".0"`.
- `vector.values.resize(size)` followed by assignment is modelled as appending. Allocation failure (`bad_alloc`) is not modelled.
- The default `auth` argument of the `NetworkClient` constructor is the constant `NetClient.DefaultAuthFile`; the constructor takes the file name explicitly.
- Every failure inside `DataProcessor::readVectorsFromFile` calls `exitWithError`, which ends the process. `Vectors.ReadVectors` models that exit as the result `false`, and `ClientApp.RunSpec` turns it into the outcome `Exited`. What `vectors` holds after a failure is never observed.
- `ServerConnection`'s destructor is the second `CloseConnection` call at the end of `ClientApp.Client.Run`. Objects destroyed on `exit` are not modelled.
- `NetClient.NetworkClient.Run` reports the vectors, results and saved text beside the returned flag. In the source these are locals, and the text goes to a file.
- `DataProcessor::saveResults` (class-based) is a parameter saying whether the results file was written; its text layout is not modelled.
- `NetworkClient::htonll`/`ntohll` are modelled as `NetCommon.HostHtonll`/`HostNtohll`; nothing in the source calls them.
- Console output, `handle_error`, `ErrorHandler`, `print_help`, `main.cpp` and the test files are not part of this model.
- NetIO.SavedTextWords: stated for formatters that print each value as one word without white space; `operator<<` of a `double` does so.
- NetIO.ParseInputLayout: stated for parsers that read back what the layout prints; real `double` text round-trips are outside the model.
