# EDGESec: protocol and policy core

This project models the parts of EDGESec that decide who gets on the network and which packets pass, and proves what
they promise. It has four parts.

**RADIUS.** Octets up to the server loop. `Bytes` and `Bits` are octets, words and their bits. `Md5Spec` is RFC 1321,
`Md5Block` and `Md5Stream` the code that computes it, `Hmac` RFC 2104. `KeyHiding` and `KeyHidingCode` are the chained
encryption of keys and passwords, forward and backward. `RadiusCodec`, `RadiusMsg`, `RadiusAuth`, `RadiusOps`,
`RadiusQueries`, `Mppe`, `Tunnel` and `Decimal` are messages over a growing buffer with a side index, their
authenticators and their attributes. `RadiusReply` is the reply to an access request, with the end-to-end theorem
`ReplyEndToEnd`. `RadiusSessions`, `PrintfEncode` and `RadiusServer` are sessions, timers, counters and the server
loop, which only ever sends datagrams the client takes as answers (`ReactionAnswers`, `Server.Run`). `RadiusRepeats`
says which requests get no reply and what becomes of requests that are sent again. The protocol lemmas hold for every
hash function; the code is tied to MD5.

**Policy.** `Iptables` is the rule chain edited by rule number, `Firewall` links addresses to interfaces, `BridgeList`
is the edge list. `Policy` says which address pairs and which addresses the MAC table and the edges stand for.
`Commands` is the supervisor as a pure state machine with its run theorems; `Supervisor` is the code, which refines
it. In every state a run of commands can reach, the chain accepts exactly the packets the tables allow
(`ChainFollowsTables`). `Access` joins this part with the one before: the octets an access point reads are what the
tables hold. `Effects` says what each command does to admission and to the packets that may pass. `Joint` says so of
every run of datagrams, timeouts and supervisor commands (`RunTells`, `RunStays`).

**Base64.** `Base64` is the text and its reading, `Base64Code` the loops over arrays, `Base64Text` what the text is,
bit by bit.

**Pcap stream reader.** `Recap` is the record parser and the state machine over short reads that refines it.

`dafny verify dfyconfig.toml` checks everything.

## How the model reads the code

- Each format and each standard has two descriptions: the function the code is proved to compute, and a theorem that
  says in octets, bits or characters what that is (`HmacIs`, `FinishedReplyIs`, `DraftOctets`, `KeyOctets`,
  `EncryptedBlock`, `PadIs`, `SubnetIff`, `TextIs`, `OctetText`, `HeaderIs`). What commands do is said by who may
  connect and what may pass (`Effects`).
- Octets and machine words are bounded integers, and bit operations are functions on bits; where the code shifts,
  masks or wraps, the model does so explicitly.
- Lists and tables the code changes in place are fields that methods reassign; buffers are arrays. The identity of a
  session object is a serial number. The hash table of MAC entries has no order: where the code walks it, any order
  will do.
- Random salts and passphrases, the answers of the connection callback, the packet decoder and the sizes of short
  reads are parameters.
- `SetIp` needs the lease discipline of DHCP: an address named for one MAC is not held by another.
- Verification of a Message-Authenticator takes its 16 octets to lie inside the message (`MacInside`, `Checkable`);
  `MacOutsideIff` says which messages that excludes, and `ShortMac` is one.
- Methods that write the text of a VLAN take it to fit its buffer (`Writable`); lemmas do not.

## Where the code does less than its description

- A hidden key comes back exactly for 1 to 255 octets, and 1 to 239 if one attribute has to hold it (`DecryptEncrypt`,
  `MppeRoundTrip`, `PasswordRoundTrip`).
- A finished message verifies exactly if it had no Message-Authenticator before (`FinishVerifies`,
  `FinishReplyVerifies`).
- VLAN 0 is written and read as 0, but `radius_msg_get_vlanid` then reports that it found none; it finds all others
  (`VlanRoundTrip`, `ReplyEndToEnd`).
- The VLAN of the callback is an `int`, but `get_vlan_attribute` takes 16 bits of it: it is read back exactly below
  65536 (`ReplyEndToEnd`). Its text and the end mark fit `id_str[5]` exactly up to 9999 (`IdStrFits`); from 10000 on
  the `sprintf` at `src/radius/radius_server.c:168` writes past that array.
- The MASQUERADE rule carries no input interface, so natted ends with one address on different interfaces share it,
  and removing one of them takes it from the others (`SharedAddress`). It stays right exactly if an end whose NAT is
  removed is the only natted one with its address (`MaskExactIff`), so in every run with one interface for each
  address (`OneInterfaceEach`). The FORWARD chain needs no such condition (`Run`, `PolicyExact`).
- An end bridged with itself gets its rule twice, and only then is any rule there twice (`DuplicateFree`).
- Encoding no octets gives an empty text, which decodes to an error (`Base64.RoundTrip`).
- `process_file_stream` returns 0 also when a step failed: the comparison in its loop condition binds before the
  assignment, so the error branch after the loop is not taken. Its result is right exactly for the streams that do not
  fail (`ProcessStream`); which ones fail is `ParseFailsIff`, and 24 zeros do (`ZeroHeaderFails`).
- A request from port 0 with identifier 0 and an all-zero authenticator counts as a repetition in every session
  without a stored reply and gets none (`ZeroSwallowed`). `SilentIff` has the exact condition.
- Replies never carry State, and a request without State is never for a session that is there already, so a client
  that only echoes State never gets a stored reply: each retransmission uses up a session (`NotRepeated`,
  `FreshRepeats`). A request that got a reply is taken for a repetition exactly if its session was there before
  (`RepeatedIff`).
- A ticket is used up by a MAC that is turned away exactly if that MAC would have got it and its VLAN is -1 or, with
  capture on, has no interface (`TicketLostIff`, `TicketLost`).
- `clear_bridges_cmd` leaves edges to MACs that are not in the table, and clears all edges of a MAC exactly if there
  are none (`ClearedIff`, `UnclearedBridge`).
- A DEL for an address that another MAC holds too cuts links the other still has a right to (`SharedLease`), unless
  that one is bridged with nobody who holds an address in reach (`DropExactIff`). It also takes the NAT away, wrongly
  exactly if another natted MAC holds the address (`DropNatIff`).

## Model

| member | source | states |
|---|---|---|
| Bytes.XorSeqCancel | src/radius/radius.c:984-985 | exclusive-or with the same digest twice gives the octets back |
| Bits.BitOps | src/radius/md5_internal.c:187-195 | and, or and exclusive-or of two numbers, bit by bit |
| Bits.MaskedEqualIff | src/utils/net.c:67-88 | two numbers agree under a mask exactly if they agree in every bit of it |
| Bits.PrefixEqualIff | src/utils/net.c:67-88 | under a prefix mask exactly if they agree without their host bits |
| Md5Block.Select | src/radius/md5_internal.c:187-188 | the three-operation selection equals the four-operation one on words of any width |
| Md5Block.F1IsF | src/radius/md5_internal.c:187-188 | the macro F1 is the function F of RFC 1321 section 3.4 |
| Md5Block.F2IsG | src/radius/md5_internal.c:189 | the macro F2, which is F1 with turned arguments, is the function G |
| Md5Block.MacroIsAux | src/radius/md5_internal.c:185-191 | each of the four macros is the auxiliary function of its round |
| Md5Block.AuxBits | src/radius/md5_internal.c:185-191 | the auxiliary functions bit by bit: two selections, the parity, and y changed where x is set or z is not |
| Md5Block.RotlIs | src/radius/md5_internal.c:195 | rotating bit by bit moves the high s bits to the low end, for every word and s up to 32 |
| Md5Block.Rotate | src/radius/md5_internal.c:195 | two shifts and an or, with the high part cut off, are that rotation |
| Md5Block.Step | src/radius/md5_internal.c:194-195 | one step leads from the state after i operations to the state after i + 1, in rotated roles |
| Md5Block.Round1 | src/radius/md5_internal.c:210-225 | the sixteen unrolled steps, with their literal constants, words and shifts, are operations 0 to 15 of the standard |
| Md5Block.Round2 | src/radius/md5_internal.c:227-242 | the sixteen unrolled steps, with their literal constants, words and shifts, are operations 16 to 31 of the standard |
| Md5Block.Round3 | src/radius/md5_internal.c:244-259 | the sixteen unrolled steps, with their literal constants, words and shifts, are operations 32 to 47 of the standard |
| Md5Block.Round4 | src/radius/md5_internal.c:261-276 | the sixteen unrolled steps, with their literal constants, words and shifts, are operations 48 to 63 of the standard |
| Md5Block.Transform | src/radius/md5_internal.c:202-282 | the 64 unrolled steps and the final additions are the compression function |
| Md5Spec.PadFillsBlocks | src/radius/md5_internal.c:145-183 | padding ends on a block boundary, in one more block or in two |
| Md5Spec.PadIs | src/radius/md5_internal.c:145-183 | the data, 0x80, zeros, and in the last eight octets the length in bits modulo 2^64, low-order octet first |
| Md5Spec.InitOctets | src/radius/md5_internal.c:83-91 | the initial value, in the octets section 3.3 of RFC 1321 gives |
| Md5Spec.FoldConcat | src/radius/md5_internal.c:97-139 | folding over a message is folding over its parts |
| Md5Stream.CounterAdvances | src/radius/md5_internal.c:101-106 | the carry arithmetic keeps the two-word counter at 8n modulo 2^64, also across a wrap of the low word |
| Md5Stream.BufferedOctets | src/radius/md5_internal.c:108 | the number of waiting octets can be read off the counter even after it wrapped |
| Md5Stream.Context.Count | src/radius/md5_internal.c:101-106 | the counter after adding up to 2^32 - 1 octets |
| Md5Stream.Context.Transform | src/radius/md5_internal.c:202-282 | the chaining value covers one more block |
| Md5Stream.Context.Update | src/radius/md5_internal.c:97-139 | from having absorbed data to having absorbed data + piece, for every split of a message into pieces below 2^32 octets |
| Md5Stream.Context.FillOut | src/radius/md5_internal.c:145-170 | the 0x80 octet and the zeros, in the one-block and in the two-block case |
| Md5Stream.Context.Final | src/radius/md5_internal.c:145-183 | the 16 octets written are the MD5 of all that was absorbed, and nothing else changes |
| Hmac.Md5Vector | src/radius/md5_internal.c:32-42 | the digest of the concatenated elements as they were before the call, even if the output lies inside one of them |
| Hmac.KeyPad | src/radius/md5.c:67-73 | the zero-extended key with every octet exclusive-or the pad value |
| Hmac.TwoPasses | src/radius/md5.c:75-99 | the inner digest overwrites the output and is read back from there by the outer pass |
| Hmac.ShortKey | src/radius/md5.c:50-56 | a key of more than 64 octets is replaced by its digest |
| Hmac.HmacMd5Vector | src/radius/md5.c:33-105 | HMAC of RFC 2104 section 2 for every key length, with the output possibly inside the data; -1 and no change for more than five elements |
| Hmac.HmacIs | src/radius/md5.c:33-105 | HMAC is the digest of a block and the digest of another block and the text; octet for octet the inner block is the key as used exclusive-or 0x36, the outer one exclusive-or 0x5c |
| KeyHiding.UnhideHide | src/radius/radius.c:1006-1049 | chained unhiding inverts chained hiding, for every hash, secret, start value and whole number of blocks |
| KeyHiding.UnhideBlock | src/radius/radius.c:1514-1541 | block k of the plain text needs cipher blocks k - 1 and k only, which is why a backward pass works in place |
| KeyHiding.EncryptedBlock | src/radius/radius.c:1006-1049 | the first block of a hidden key is hidden with the digest of secret, authenticator and salt in this order, every other with that of secret and the block before |
| KeyHiding.KeyPlainIs | src/radius/radius.c:1006-1024 | what is hidden: length octet, key, zeros |
| KeyHiding.DecryptEncrypt | src/radius/radius.c:931-1049 | decrypting an encrypted key gives the key if and only if it has 1 to 255 octets |
| KeyHiding.TunnelKeyIsDecryptKey | src/radius/radius.c:1504-1557 | the value both decryptions are specified by is the same: behind the tag and the salt a Tunnel-Password is an MPPE key; that the backward pass computes it is DecryptTunnelPassword |
| KeyHidingCode.XorInto | src/radius/radius.c:984-985 | sixteen octets change by exclusive-or, all others stay |
| KeyHidingCode.HideStep | src/radius/radius.c:1026-1047 | one more block is chained on the cipher text before it |
| KeyHidingCode.EncryptMsKey | src/radius/radius.c:1006-1049 | length octet, key and padding are hidden in place, for every key that fits the buffer |
| KeyHidingCode.DecryptMsKey | src/radius/radius.c:931-1004 | the forward decryption: the key, or an error for a short or ragged value or a bad length octet |
| KeyHidingCode.DecryptTunnelPassword | src/radius/radius.c:1504-1557 | the backward in-place decryption gives what unhiding out of place gives |
| KeyHidingCode.HidePassword | src/radius/radius.c:1216-1262 | the ciphertext has the data length rounded up to 16; -1 if the buffer has no 16 octets to spare |
| KeyHidingCode.HiddenPasswordUnhides | src/radius/radius.c:1216-1262 | unhiding by RFC 2865 section 5.2 gives the data padded with zeros |
| RadiusCodec.ParseEncode | src/radius/radius.c:638-699 | parsing encoded attributes gives them back |
| RadiusCodec.EncodeParse | src/radius/radius.c:638-699 | what parses is the encoding of what it parses to |
| RadiusCodec.ParseIsTiling | src/radius/radius.c:674-692 | parsing succeeds exactly on octets that some attribute sequence tiles without a gap |
| RadiusCodec.ParseAppend | src/radius/radius.c:595-627 | appending an encoded attribute appends the attribute |
| RadiusCodec.PositionRead | src/radius/radius.c:71-75 | every offset of the side index points at its attribute |
| RadiusMsg.AcceptedIff | src/radius/radius.c:638-699 | a datagram is accepted exactly when its declared length lies between 20 and its size and is tiled by attributes |
| RadiusMsg.TrailingIgnored | src/radius/radius.c:656-661 | octets after the declared length change nothing |
| RadiusMsg.WpaBuf.constructor | src/radius/wpabuf.c:106-124 | an empty zeroed buffer of the given size |
| RadiusMsg.WpaBuf.Resize | src/radius/wpabuf.c:46-99 | room for the octets asked for, content kept |
| RadiusMsg.WpaBuf.PutData | src/radius/wpabuf.c:197-204 | appends within the buffer; the overflow abort is out of reach |
| RadiusMsg.Message.constructor | src/radius/radius.c:102-119 | a bare header and no attributes |
| RadiusMsg.Message.AddAttr | src/radius/radius.c:575-627 | appends one attribute and its offset, or refuses more than 253 octets and changes nothing; the index stays an exact tiling |
| RadiusMsg.Parse | src/radius/radius.c:638-699 | NULL exactly for what is not accepted; otherwise the message with its exact attribute index |
| RadiusMsg.AttributeOffsets | src/radius/radius.c:674-692 | the attribute loop finds the offsets of all attributes, or that they do not tile |
| RadiusMsg.Message.Finish | src/radius/radius.c:350-376 | the message with a Message-Authenticator over itself, computed into its own buffer; -1 above 65535 octets |
| RadiusMsg.Message.FinishReply | src/radius/radius.c:378-415 | the reply with Message-Authenticator and Response Authenticator |
| RadiusMsg.Message.FindMac | src/radius/radius.c:765-781 | the offset of the only Message-Authenticator |
| RadiusMsg.Message.VerifyMsgAuth | src/radius/radius.c:758-806 | 0 exactly for the only Message-Authenticator being the HMAC; every octet is as before, despite the overwriting |
| RadiusMsg.Message.Verify | src/radius/radius.c:808-841 | 0 exactly for a verified reply; every octet is as before |
| RadiusAuth.FinishVerifies | src/radius/radius.c:350-376 | a finished message verifies if and only if it had no Message-Authenticator before |
| RadiusAuth.FinishReplyVerifies | src/radius/radius.c:378-415 | a finished reply verifies against the same request authenticator if and only if it had no Message-Authenticator before, or that check is off |
| RadiusAuth.FinishedReplyAttrs | src/radius/radius.c:378-415 | finishing adds the Message-Authenticator and changes no other attribute |
| RadiusAuth.ResponseAuthIs | src/radius/radius.c:398-406 | the Response Authenticator is the digest of the message with the request authenticator in its header, followed by the secret |
| RadiusAuth.FinishedIs | src/radius/radius.c:350-376 | a finished message octet for octet, its last 16 the HMAC of the message with zeros there |
| RadiusAuth.FinishedReplyIs | src/radius/radius.c:378-415 | a finished reply octet for octet: the HMAC is over the message with the request authenticator and zeros, the header holds the digest of code, identifier, length, request authenticator, attributes and secret |
| RadiusAuth.MacOutsideIff | src/radius/radius.c:765-798 | the messages the verification is not stated for are exactly those whose only Message-Authenticator starts fewer than 18 octets before the end, where the code reads and overwrites octets behind the message |
| RadiusRepeats.ShortMac | src/radius/radius.c:638-699 | such a message that is received: a request of 22 octets whose only attribute is an empty Message-Authenticator |
| RadiusOps.EapRoundTrip | src/radius/radius.c:701-756 | reassembly gives the earlier payload followed by the new data, whatever its length |
| RadiusOps.FragmentIs | src/radius/radius.c:701-721 | fragment i is an attribute of type 79 with the octets from 253i on |
| RadiusOps.AddEap | src/radius/radius.c:701-721 | the data in fragments of at most 253 octets |
| RadiusOps.GetEap | src/radius/radius.c:723-756 | the joined payload, in a buffer sized by a first pass and filled exactly by the second; nothing without EAP data |
| RadiusOps.CopyAttr | src/radius/radius.c:843-860 | all attributes of one type, in order, and how many |
| RadiusQueries.FirstOfType | src/radius/radius.c:1302-1321 | the value of the first attribute of a type |
| RadiusQueries.GetVendorAttr | src/radius/radius.c:876-929 | the nested scan: the first subattribute of a vendor and type that is inside its attribute |
| RadiusQueries.VendorScanIs | src/radius/radius.c:876-929 | of a list of subattributes the nested scan gives the first of the wanted type, however many come before it |
| Mppe.MppeRoundTrip | src/radius/radius.c:1051-1190 | both keys are read back if and only if each has 1 to 239 octets, when no such attribute was there before; the salts differ |
| RadiusQueries.AddMppeKeys | src/radius/radius.c:1119-1190 | both key attributes are added exactly if both fit; otherwise the first is added if it fits, and nothing after it |
| RadiusQueries.KeyOctets | src/radius/radius.c:1119-1190 | the octets of both key attributes: vendor 311, subattributes 16 and 17 |
| RadiusQueries.GetMsKeys | src/radius/radius.c:1051-1091 | both keys, each absent where the scan or the decryption fails |
| Decimal.AtoiPrint | src/radius/radius_server.c:131-176 | reading a printed number gives it back |
| Decimal.PrintDigit | src/radius/radius_server.c:168 | every digit of a printed number |
| Decimal.PrintLength | src/radius/radius_server.c:168 | a number has at most n digits exactly if it is below 10^n |
| Tunnel.IdStrFits | src/radius/radius_server.c:132-168 | the text of a VLAN and its end mark fit the five octets of id_str exactly up to 9999 |
| Tunnel.VlanRoundTrip | src/radius/radius.c:1364-1450 | among attributes of other types, the VLAN written is the VLAN read, for all 16-bit VLANs; the reader reports that it found one exactly if it is not 0 |
| Tunnel.TaggedRoundTrip | src/radius/radius.c:1364-1450 | a tunnel under any tag from 1 to 31 is read as well |
| Tunnel.TunnelIs | src/radius/radius.c:1364-1432 | of every tag the scan keeps the last type, the last medium and the last positive group id |
| Tunnel.EgressIs | src/radius/radius.c:1418-1430 | of the VLANs marked 0x31 it keeps the first there is room for, of those marked 0x32 the last |
| Tunnel.UntaggedIs | src/radius/radius.c:1434-1443 | the untagged VLAN is that of the lowest tag whose type is 13, medium 6 and group id positive; without one the last marked 0x32 |
| Tunnel.PasswordRoundTrip | src/radius/radius.c:1462-1563 | a first Tunnel-Password is read back if and only if it has 1 to 239 octets |
| Tunnel.NthIs | src/radius/radius.c:1462-1500 | the n-th password is number n of all attributes with a password |
| RadiusQueries.ScanTunnels | src/radius/radius.c:1364-1432 | the loop over tunnel[32] computes the scan of all attributes |
| RadiusQueries.GetVlanId | src/radius/radius.c:1364-1450 | the untagged VLAN, and the tagged ones ascending and with their multiplicities; found exactly if there is one |
| RadiusQueries.GetTunnelPassword | src/radius/radius.c:1462-1563 | the n-th Tunnel-Password, decrypted |
| RadiusReply.ReplyEndToEnd | src/radius/radius_server.c:351-444 | for every hash, request, callback answer, salt and secret the reply parses, verifies against the request, keeps identifier and Proxy-State list, is an accept exactly if due, and yields that VLAN exactly below 65536 and that passphrase exactly for 1 to 239 octets; a VLAN is found exactly in an accept whose VLAN is not a multiple of 65536 |
| RadiusReply.ReplyFits | src/radius/radius_server.c:351-444 | the reply can be built exactly if it is no accept or the hidden passphrase takes at most 15 blocks, which up to 255 octets means at most 239; it then stays short |
| RadiusReply.DraftOctets | src/radius/radius_server.c:351-444 | the octets of a reply before it is finished: code 2 or 3, identifier, Proxy-State attributes, and in an accept the literal octets of type, medium, VLAN text and hidden passphrase |
| RadiusReply.GetVlanAttribute | src/radius/radius_server.c:131-176 | the three attributes, with the text written inside id_str |
| RadiusReply.GetPasswordAttribute | src/radius/radius_server.c:87-129 | tag, salt and hidden passphrase |
| RadiusReply.DraftReply | src/radius/radius_server.c:405-428 | header, copied Proxy-State attributes in order, then the rest; nothing if one does not fit |
| RadiusReply.Macacl | src/radius/radius_server.c:351-444 | the octets of the finished reply, or none exactly if an attribute does not fit |
| RadiusServer.ReplyAnswers | src/radius/radius_server.c:351-444 | a decided reply is one the client takes as the answer to its request, and never carries a State attribute |
| RadiusServer.RejectReply | src/radius/radius_server.c:446-475 | a reject with the Proxy-State attributes of the request |
| RadiusServer.ReactionAnswers | src/radius/radius_server.c:493-617 | every datagram sent in any reachable state answers the request it came for, repeated replies included |
| RadiusServer.CountedAs | src/radius/radius_server.c:619-701 | which datagrams count as malformed, unknown and badly signed, and which code the counted replies have |
| RadiusServer.Server.constructor | src/radius/radius_server.c:813-853 | no sessions, no timers, counters at zero |
| RadiusServer.Server.GetClient | src/radius/radius_server.c:179-193 | the first client whose subnet holds the address |
| RadiusServer.InSubnetIff | src/radius/radius_server.c:179-193 | an address is a client address exactly if it agrees with it in every bit of the mask |
| RadiusServer.Server.GetSession | src/radius/radius_server.c:196-207 | the first session of the client with that id |
| RadiusServer.Server.Note | src/radius/radius_server.c:479-480 | a server counter and the client counter move together, modulo 2^32 |
| RadiusServer.Server.Remove | src/radius/radius_server.c:209-248 | the session leaves the list and the count, and takes its timer along |
| RadiusServer.Server.NewSession | src/radius/radius_server.c:267-349 | a session at the head of the list with the next id, a pending timer and the encoded user name |
| RadiusServer.Server.Locate | src/radius/radius_server.c:506-535 | which session a request is for, or that there is none |
| RadiusServer.TargetIs | src/radius/radius_server.c:506-535 | State names the session in four octets, most significant first; without State a request with a user name opens one while there are fewer than 1000 |
| RadiusServer.Server.Remember | src/radius/radius_server.c:595-600 | the last reply with its port, identifier and authenticator |
| RadiusServer.Server.Reject | src/radius/radius_server.c:446-491 | a counted reject |
| RadiusServer.Server.Answer | src/radius/radius_server.c:560-617 | the decided reply, counted and remembered; no count if it could not be built |
| RadiusServer.Server.Serve | src/radius/radius_server.c:536-617 | the stored reply to a repeated request, else a decided one, and the client after it |
| RadiusServer.Server.Request | src/radius/radius_server.c:493-617 | what is counted and sent and the client after it, for no session, a repeated request and a new one |
| RadiusServer.Server.FromClient | src/radius/radius_server.c:663-696 | the same for malformed, unexpected, badly signed and good datagrams |
| RadiusServer.Server.Receive | src/radius/radius_server.c:619-701 | keeps all bookkeeping invariants; whatever it sends is a fit answer |
| RadiusServer.Server.Expire | src/radius/radius_server.c:250-264 | a pending timer always finds its live session, which goes |
| RadiusServer.Server.Handle | src/radius/radius_server.c:619-701 | an event does what the pure machine does, which says exactly what is sent and what every client, session and counter is afterwards |
| RadiusServer.Server.Run | src/radius/radius_server.c:619-701 | after every run of datagrams and timeouts the invariants hold, clients, sessions and replies are those of the pure machine, and every datagram sent is the answer, under the secret of its client, to the one it was sent for |
| RadiusRepeats.SilentIff | src/radius/radius_server.c:536-564 | in every reachable state a verified request gets no reply exactly if port, identifier and authenticator are zero and its session has no stored reply, or if it is no repetition and asks for an accept whose passphrase is too long |
| RadiusRepeats.DuplicateIff | src/radius/radius_server.c:536-557 | a request counts as a repetition exactly if port, identifier and authenticator are those last answered in its session, or all zero in a new one |
| RadiusRepeats.ZeroSwallowed | src/radius/radius_server.c:536-557 | such a request: properly signed, it is counted as a duplicate and left without a reply |
| RadiusRepeats.RepeatedIff | src/radius/radius_server.c:506-557 | a request that got a reply is taken for a repetition when it is sent again if and only if it was for a session that was there already, and then gets the same octets |
| RadiusRepeats.NotRepeated | src/radius/radius_server.c:518-557 | a signed request without State that is answered, and decided anew when it is sent again |
| RadiusRepeats.StateRepeats | src/radius/radius_server.c:506-557 | a request with State that was answered is answered with the same octets when it is sent again, whatever the callback now says |
| RadiusRepeats.FreshRepeats | src/radius/radius_server.c:518-617 | a request with a user name and without State is never taken for a repetition: sent n more times, each with its own callback answer and salt, it uses up n sessions while there is room, is decided anew each time, and is rejected afterwards |
| Access.AccessGranted | src/supervisor/supervisor.c:118-207 | from tables to octets: the reply is an accept exactly if the request has a User-Password, the MAC is not denied and is due a VLAN that may be used, and the access point then reads the VLAN and the passphrase which table, ticket or configuration hold for it |
| Access.DueStays | src/supervisor/supervisor.c:118-207 | a welcome MAC with a passphrase is due the same VLAN and passphrase after every run of commands that does not accept, deny or re-key it |
| Access.AccessStays | src/supervisor/supervisor.c:118-207 | it reads the same from the reply to any later request, after every run of commands that does not accept, deny or re-key the MAC |
| Joint.AnswerUsed | src/radius/radius_server.c:560-617 | a datagram that makes the server ask is answered with the reply decided by the answer |
| Joint.AnswerUnused | src/radius/radius_server.c:506-557 | for every other datagram the answer of the callback does not matter |
| Joint.Projections | src/radius/radius_server.c:619-701 | a joint run of datagrams, timeouts and supervisor commands is a run of the server and a run of the supervisor, in which every question is a connection |
| Joint.RunTells | src/radius/radius_server.c:351-444 | in every joint run a datagram that asks is answered exactly if the passphrase fits, and the reply tells what the tables hold for the MAC at that moment |
| Joint.RunStays | src/supervisor/supervisor.c:118-207 | in every joint run a MAC that was welcome when it was asked about is welcome with the same VLAN and passphrase at every later event, if no command in between accepts, denies or re-keys it |
| RadiusSessions.InsertBooked | src/radius/radius_server.c:267-289 | a new session keeps the count, the bound of 1000, distinct objects and one timer each |
| RadiusSessions.RemoveBooked | src/radius/radius_server.c:209-248 | so does removing one |
| RadiusSessions.DistinctIds | src/radius/radius_server.c:282 | two live sessions share an id exactly when the 32-bit counter came round between them; before that ids are distinct |
| RadiusSessions.BumpTallied | src/radius/radius_server.h:126-131 | each counter stays the sum over the clients, modulo 2^32 |
| RadiusSessions.OutcomesBounded | src/radius/radius_server.h:126-131 | before the wrap, accepts, rejects, duplicates and bad authenticators together with the requests that got no reply are exactly the requests |
| PrintfEncode.DecodeEncode | src/radius/common.h:274-325 | the text can be read back |
| PrintfEncode.OctetText | src/radius/common.h:274-325 | the text of every octet, in characters |
| PrintfEncode.EncodeInjective | src/radius/common.h:274-325 | two names are written alike only if they are equal |
| PrintfEncode.EncodeInto | src/radius/common.h:274-325 | stays inside the buffer, stops at the first octet that might not fit, and never with 4n + 1 octets |
| Iptables.AcceptedIff | src/utils/iptables.c:220-237 | a unicast packet from a configured interface is accepted exactly when some ACCEPT matches it, since all of them precede the REJECT |
| Iptables.MulticastAccepted | src/utils/iptables.c:33-47 | multicast passes whatever the policy, since its rule is ahead of every REJECT |
| Iptables.OutsideAccepted | src/utils/iptables.c:246-280 | a packet from an interface that is not configured is accepted whatever the policy, since no REJECT is for it |
| Iptables.PolicyExact | src/utils/iptables.c:306-534 | first-match evaluation is the policy: bridged pairs, and natted ends from and to the NAT interface |
| Iptables.InsertKeepsOrder | src/utils/iptables.c:374-422 | an ACCEPT put at or before the REJECT of its interface keeps every ACCEPT ahead of its REJECT |
| Iptables.FindRule | src/utils/iptables.c:306-317 | the number of the first rule with these columns, or zero |
| Iptables.FindBaseif | src/utils/iptables.c:363-372 | the number of the first REJECT of an interface, or zero |
| Iptables.Context.constructor | src/utils/iptables.c:246-280 | the multicast rule and one REJECT per interface |
| Iptables.Context.DeleteRule | src/utils/iptables.c:319-346 | that rule is gone once, order is kept |
| Iptables.Context.AddRule | src/utils/iptables.c:374-422 | that rule is there once more, ahead of its REJECT |
| Iptables.Context.DeleteBridge | src/utils/iptables.c:348-361 | the policy without the pair |
| Iptables.Context.AddBridge | src/utils/iptables.c:424-446 | the policy with the pair, for any two ends |
| Iptables.Context.DeleteNat | src/utils/iptables.c:448-486 | the policy without the natted end; its address is no longer masqueraded |
| Iptables.Context.AddNat | src/utils/iptables.c:488-534 | the policy with the natted end; its address is masqueraded |
| Iptables.Context.Run | src/utils/iptables.c:306-534 | after every run of operations, on any ends, the chain holds the rules of the resulting policy and no others, and POSTROUTING masquerades the resulting addresses |
| Iptables.DuplicateFree | src/utils/iptables.c:306-534 | no rule is there twice exactly as long as no end is bridged with itself |
| Iptables.MaskedIff | src/utils/iptables.c:448-534 | what POSTROUTING masquerades: packets from those addresses that leave by the NAT interface |
| Iptables.MaskExactIff | src/utils/iptables.c:448-486 | the masqueraded addresses stay those of the natted ends with every operation, except that removing the NAT of an end is right if and only if no other natted end has its address |
| Iptables.SharedAddress | src/utils/iptables.c:448-486 | one address natted on two interfaces: removing one stops the masquerading of the other |
| Iptables.OneInterfaceEach | src/utils/iptables.c:448-534 | over every run in which each address is natted on one interface, masquerading stays exact |
| Firewall.FindIfinfoIff | src/utils/iface_mapper.c:180-203 | an entry is found exactly if it is the first whose subnet holds the address and no unreadable one comes before it |
| Firewall.SubnetIff | src/utils/net.c:67-88 | an address is in a subnet exactly if it agrees with the interface in every bit of the mask |
| Firewall.PrefixSubnet | src/utils/net.c:67-88 | with a prefix mask exactly if it agrees in the network part |
| Firewall.GetIfname | src/utils/iface_mapper.c:234-261 | the interface of the first subnet that holds the address, unless an unreadable entry comes first |
| Firewall.Service.constructor | src/firewall/firewall_service.c:71-180 | no pair linked, no address natted |
| Firewall.Service.AddBridge | src/firewall/firewall_service.c:262-321 | 0 and both directions linked exactly if both interfaces are known |
| Firewall.Service.RemoveBridge | src/firewall/firewall_service.c:323-367 | 0 and both directions gone exactly if both interfaces are known |
| Firewall.Service.AddNat | src/firewall/firewall_service.c:182-224 | 0 and natted exactly if the interface is known |
| Firewall.Service.RemoveNat | src/firewall/firewall_service.c:226-260 | 0 and not natted exactly if the interface is known |
| BridgeList.List.Get | src/supervisor/bridge_list.c:68-101 | where both directions of an edge are |
| BridgeList.List.Exists | src/supervisor/bridge_list.c:103-113 | whether the edge is there |
| BridgeList.List.Add | src/supervisor/bridge_list.c:115-166 | -1 for a self edge, 0 for a known one, 1 for a new one; symmetric, self-free and duplicate-free |
| BridgeList.List.Remove | src/supervisor/bridge_list.c:168-195 | both directions gone, present or not |
| BridgeList.List.Neighbours | src/supervisor/bridge_list.c:197-215 | exactly the other ends of the edges of a MAC |
| Policy.LinkEdge | src/supervisor/network_commands.c:269-307 | a new edge links the product of the addresses of its ends |
| Policy.UnlinkEdge | src/supervisor/network_commands.c:352-391 | removing an edge unlinks that product and nothing else, because no address has two holders |
| Policy.TakeAddress | src/supervisor/system_commands.c:139-151 | a new address is linked to what is in reach and nothing else changes |
| Policy.DropAddress | src/supervisor/system_commands.c:152-163 | an address given up is unlinked from what is in reach and nothing else changes |
| Policy.DropExactIff | src/supervisor/system_commands.c:152-163 | without lease discipline, cutting those links is exactly right if and only if no other holder of the address is bridged with a holder of an address in reach |
| Policy.DropNatIff | src/supervisor/system_commands.c:124-130 | without lease discipline, taking the NAT of an address a natted MAC gives up is right if and only if no other natted MAC holds it |
| Policy.SharedLease | src/supervisor/system_commands.c:152-163 | two MACs with one address, both bridged with a third: when one gives it up the other loses its link |
| Policy.NattedUpdate | src/supervisor/system_commands.c:117-130 | which addresses are natted after an entry is replaced |
| Commands.NextSound | src/supervisor/network_commands.c:53-471 | every lawful command keeps one holder per address and proper edges |
| Commands.RunSound | src/supervisor/network_commands.c:53-471 | so does every lawful run |
| Commands.TicketsOneEach | src/supervisor/network_commands.c:411-448 | over every run each ticket goes to at most one MAC |
| Commands.DenyEffect | src/supervisor/network_commands.c:102-127 | after DENY_MAC a MAC is turned away, whatever it was before |
| Commands.DeniedStays | src/supervisor/network_commands.c:102-127 | a denied MAC is answered with VLAN -1 after every run that does not accept it, and the answer changes nothing |
| Commands.AdmittedStays | src/supervisor/supervisor.c:118-207 | a MAC answered with a VLAN and a passphrase gets both again after every run that does not accept, deny or re-key it |
| Commands.RejectedIff | src/supervisor/supervisor.c:118-207 | turned away is exactly a denied MAC, one whose VLAN has no interface while capturing, or one that is due VLAN -1; every other gets the VLAN it is due |
| Commands.TicketLostIff | src/supervisor/supervisor.c:169-190 | a MAC is turned away and the ticket is gone exactly if it is not denied and has no passphrase of its own, not everyone is let in, and the VLAN of the ticket is -1 or, with capture on, has no interface |
| Commands.TicketLost | src/supervisor/supervisor.c:169-190 | such a state, one command after the start |
| Commands.ClearedIff | src/supervisor/network_commands.c:393-409 | no edge of a MAC is left after CLEAR_BRIDGES exactly if all MACs it is bridged with are in the table |
| Commands.UnclearedBridge | src/supervisor/network_commands.c:393-409 | an edge that stays, two commands after the start |
| Effects.AcceptEffect | src/supervisor/network_commands.c:53-100 | after ACCEPT_MAC for a VLAN with an interface the MAC is not denied, and is due that VLAN if it has a passphrase or everyone is let in |
| Effects.DeniedIff | src/supervisor/network_commands.c:53-471 | who is denied changes only by DENY_MAC and by ACCEPT_MAC for a VLAN with an interface |
| Effects.AssignEffect | src/supervisor/network_commands.c:219-241 | after ASSIGN_PSK that passphrase is due |
| Effects.ClearPskEffect | src/supervisor/network_commands.c:450-471 | after CLEAR_PSK the passphrase of the ticket is due, or the default one |
| Effects.TicketEffect | src/supervisor/network_commands.c:411-448 | a ticket is due to every MAC without a passphrase while it is out, and the allocated VLAN with the default passphrase when it is not |
| Effects.OthersKept | src/supervisor/network_commands.c:53-471 | a command about one MAC leaves the admission and the addresses of all others alone |
| Effects.AddNatEffect | src/supervisor/network_commands.c:151-183 | ADD_NAT lets exactly the packets between the MAC and the NAT interface pass as well |
| Effects.RemoveNatEffect | src/supervisor/network_commands.c:185-217 | after REMOVE_NAT exactly the packets pass that may by a bridge or the NAT of another MAC |
| Effects.AddBridgeEffect | src/supervisor/network_commands.c:269-307 | ADD_BRIDGE lets exactly the packets between the two MACs pass as well |
| Effects.AddBridgeIpEffect | src/supervisor/network_commands.c:309-350 | ADD_BRIDGE for addresses is that for the MACs that hold them |
| Effects.RemoveBridgeEffect | src/supervisor/network_commands.c:352-391 | after REMOVE_BRIDGE the packets between the two MACs pass only by NAT, all others as before |
| Effects.SetIpEffect | src/supervisor/system_commands.c:33-169 | which addresses a MAC holds after SET_IP |
| Effects.NewcomerEffect | src/supervisor/system_commands.c:33-169 | a MAC first seen with an address reaches the NAT interface exactly if that is allowed for all or by a bridge |
| Supervisor.PolicyKept | src/supervisor/network_commands.c:53-127 | commands that touch neither addresses, NAT flag nor edges leave the policy alone |
| Supervisor.SetIpPolicy | src/supervisor/system_commands.c:33-169 | how the linked pairs and the natted addresses change with an address |
| Supervisor.Supervisor.constructor | src/supervisor/supervisor_config.h:45-86 | empty tables, and a firewall in step with them |
| Supervisor.Supervisor.AcceptMac | src/supervisor/network_commands.c:53-100 | 0 and admitted on that VLAN exactly if it has an interface |
| Supervisor.Supervisor.DenyMac | src/supervisor/network_commands.c:102-127 | denied, known or not |
| Supervisor.Supervisor.AddNat | src/supervisor/network_commands.c:151-183 | flag and firewall rules change together |
| Supervisor.Supervisor.RemoveNat | src/supervisor/network_commands.c:185-217 | flag and firewall rules change together |
| Supervisor.Supervisor.AssignPsk | src/supervisor/network_commands.c:219-241 | the passphrase of one MAC |
| Supervisor.Supervisor.ClearPsk | src/supervisor/network_commands.c:450-471 | no passphrase for one MAC |
| Supervisor.Supervisor.AddBridgeIps | src/supervisor/network_commands.c:243-254 | links two addresses if both are there |
| Supervisor.Supervisor.DeleteBridgeIps | src/supervisor/network_commands.c:256-267 | unlinks two addresses if both are there |
| Supervisor.Supervisor.AddBridge | src/supervisor/network_commands.c:269-307 | the edge and the rules for all pairs of addresses; -1 exactly for a self edge |
| Supervisor.Supervisor.AddBridgeIp | src/supervisor/network_commands.c:309-350 | the edge between the holders of two addresses; -1 exactly if one has no holder or both are the same |
| Supervisor.Supervisor.RemoveBridge | src/supervisor/network_commands.c:352-391 | the edge and its rules are gone |
| Supervisor.Supervisor.ClearBridges | src/supervisor/network_commands.c:393-409 | the edges to all MACs of the table are gone, in whatever order they are visited; edges to unknown MACs stay |
| Supervisor.Supervisor.RegisterTicket | src/supervisor/network_commands.c:411-448 | a ticket, unless one is out |
| Supervisor.Supervisor.TicketTimeout | src/supervisor/network_commands.c:36-51 | no ticket is out |
| Supervisor.Supervisor.SaveDevice | src/supervisor/supervisor.c:87-116 | -1 exactly for a VLAN without an interface while capturing |
| Supervisor.Supervisor.GetMacConn | src/supervisor/supervisor.c:118-207 | the answer and the tables of the admission step, policy unchanged |
| Supervisor.Supervisor.Connect | src/supervisor/supervisor.c:118-207 | the branches compute the admission step |
| Supervisor.Supervisor.ApStatus | src/supervisor/supervisor.c:209-229 | the status of a known MAC |
| Supervisor.Supervisor.Allocate | src/supervisor/supervisor_utils.c:24-59 | the allocated VLAN |
| Supervisor.SdbmHash | src/utils/hash.c:39-47 | the hash over 32-bit words |
| Supervisor.Supervisor.PickSlot | src/supervisor/system_commands.c:58-97 | the entry to store; -1 exactly if both slots hold other addresses |
| Supervisor.Supervisor.Rebridge | src/supervisor/system_commands.c:139-165 | the loop links or unlinks the address and everything the bridged MACs hold |
| Supervisor.Supervisor.SetIp | src/supervisor/system_commands.c:33-169 | table, NAT rules and bridge rules change together; -1 exactly for an unknown subnet or two full slots |
| Supervisor.Supervisor.GetIp | src/supervisor/mac_mapper.c:128-160 | a holder of the address, or that there is none |
| Supervisor.Supervisor.Do | src/supervisor/network_commands.c:53-471 | every command refines its step of the state machine and keeps the firewall in step |
| Supervisor.Supervisor.Run | src/supervisor/network_commands.c:53-471 | so does every lawful run of commands |
| Supervisor.Supervisor.ChainFollowsTables | src/utils/iptables.c:306-534 | in every reachable state the FORWARD chain accepts a unicast packet from a configured interface exactly if the tables allow it |
| Supervisor.Supervisor.MulticastPasses | src/utils/iptables.c:33-47 | in every reachable state multicast passes |
| Supervisor.Supervisor.MaskingFollowsTables | src/utils/iptables.c:448-534 | in every reachable state POSTROUTING masquerades exactly what leaves by the NAT interface from an address of a MAC with the NAT flag |
| Base64.RoundTrip | src/utils/base64.c:20-148 | decoding the encoding gives the data if and only if it is not empty, for both alphabets, with padding and line feeds or without |
| Base64Text.SymbolTable | src/utils/base64.c:15-18 | the symbols are the printed alphabets of RFC 4648 sections 4 and 5 |
| Base64Text.TextIs | src/utils/base64.c:20-80 | the text has a character for every six bits, rounded up, and the i-th is the table entry of the bits from 6i on, for all data |
| Base64Text.PaddingIs | src/utils/base64.c:58-72 | padding completes the last group of four |
| Base64Text.NoLines | src/utils/base64.c:45-80 | without padding the text is just these characters |
| Base64Text.LayoutIs | src/utils/base64.c:45-80 | with padding it is laid out in lines of 72 characters, each ended by a line feed |
| Base64Text.AfterPadding | src/utils/base64.c:110-146 | whatever follows a padded text is not read |
| Base64.DecodeKept | src/utils/base64.c:95-120 | decoding depends only on the characters of the alphabet and the padding character |
| Base64.EncodeFits | src/utils/base64.c:31-34 | text, line feeds and end mark fit the computed size |
| Base64Code.Split | src/utils/base64.c:46-49 | shifts, masks and ors give the four six-bit groups |
| Base64Code.Merge | src/utils/base64.c:127-129 | shifts and ors, cut to eight bits, give the three octets |
| Base64Code.EncodeGroups | src/utils/base64.c:45-56 | the loop writes the text of all whole groups |
| Base64Code.GenEncode | src/utils/base64.c:20-80 | NULL exactly from SIZE_MAX / 4 on; otherwise the terminated text inside a buffer of the computed size, which does not overflow |
| Base64Code.DecodeTable | src/utils/base64.c:90-93 | the value of every character, or the mark to skip it |
| Base64Code.DecodeInto | src/utils/base64.c:110-146 | the reading loop stays inside the buffer and computes the decoding of the completed text |
| Base64Code.GenDecode | src/utils/base64.c:82-148 | NULL exactly where the decoding fails; otherwise the octets, inside a buffer of three octets for every four characters counted or added |
| Recap.FileReads | src/edgesec-recap.c:216-469 | the parser reads a well-formed file back, header and records, and leaves a header or a packet that is cut off at its end out |
| Recap.FileHeaderIs | src/edgesec-recap.c:216-258 | a file starts with d4 c3 b2 a1, has its link type in octets 20 to 23 and its records behind |
| Recap.HeaderIs | src/edgesec-recap.c:260-294 | the four fields of a packet header, low-order octet first |
| Recap.ParseFailsIff | src/edgesec-recap.c:216-429 | the parser fails exactly on a whole file header with another magic number, and where after well-formed records comes a header with more octets captured than the packet had or a whole packet that cannot be decoded |
| Recap.ZeroHeaderFails | src/edgesec-recap.c:216-258 | such a stream: 24 zeros |
| Recap.Reader.Read | src/edgesec-recap.c:186-214 | what a short read moves from the stream to the buffer |
| Recap.Reader.ProcessFileHeader | src/edgesec-recap.c:216-258 | keeps what was saved and what is to come equal to the records of the stream, and comes closer to the end; fails exactly where the parser does |
| Recap.Reader.ProcessPacketHeader | src/edgesec-recap.c:260-294 | the same for a packet header |
| Recap.Reader.ProcessPacket | src/edgesec-recap.c:383-429 | the same for a packet, of no octets too |
| Recap.Reader.Step | src/edgesec-recap.c:431-469 | the same for every state; 0 exactly at the end |
| Recap.Reader.ProcessStream | src/edgesec-recap.c:471-491 | for every stream and every pattern of short reads it ends, has saved exactly the records before the first truncated, overlong or undecodable one and counted their packets, has read all of the stream unless the parser fails, every octet read is in a complete part or buffered; the result is 0 and so tells of a failure correctly exactly if there was none |

## Left out

- Sockets, the event loop, process spawning, netlink, UCI and the `ip` command: system calls only.
- SQLite and the crypt service: storing an entry succeeds and changes nothing else.
- Command strings, INI files, logging and dumps: the model starts at the command functions.
- The text of iptables listings: a listing is the chain.
- Failures of memory allocation and of iptables commands, and the roll-back after a failed second insert.
- Dotted-quad text: an address is a number, and 255.255.255.255 cannot be told from an error, as in the code.
- The accounting, dynamic-authorization, WFA and Cisco functions of the RADIUS message layer, and the class attribute.
- The parsing of Calling-Station-Id: the MAC of a session is a parameter, a function of the session.
- The timer for completed sessions, which no path registers.
- Packet decoding and the live-capture mode of the recap tool; big-endian hosts.
- Counters of 64 bits in the stream reader: they count without bound.
- Supervisor.Supervisor.SetIp: is stated under lease discipline; `DropExactIff` and `DropNatIff` say when a DEL is
  right without it.
- Supervisor.Supervisor.Do: takes lease discipline for SET_IP.
- Supervisor.Supervisor.Run: takes lease discipline for every SET_IP of the run.
- RadiusMsg.Message.VerifyMsgAuth: takes the authenticator's 16 octets to be inside the message, see `MacOutsideIff`.
- RadiusMsg.Message.Verify: takes the authenticator's 16 octets to be inside the message, see `MacOutsideIff`.
- RadiusServer.ReactionAnswers: takes the authenticator's 16 octets to be inside the datagram, see `MacOutsideIff`.
- RadiusServer.Server.FromClient: takes them to be inside and the text of the VLAN to fit its buffer, see `IdStrFits`.
- RadiusServer.Server.Receive: takes them to be inside and the text of the VLAN to fit its buffer, see `IdStrFits`.
- RadiusServer.Server.Handle: takes this of a datagram and the callback answer.
- RadiusServer.Server.Run: takes this of all datagrams and callback answers of the run.
- RadiusReply.Macacl: takes the text of the VLAN to fit its buffer; what the code leaves in memory otherwise has no
  model.
- RadiusReply.GetVlanAttribute: takes the text of the VLAN to fit its buffer.
- RadiusServer.Server.Answer: takes the text of the VLAN to fit its buffer.
- RadiusServer.Server.Serve: takes the text of the VLAN to fit its buffer.
- RadiusServer.Server.Request: takes the text of the VLAN to fit its buffer.
- RadiusQueries.FirstOfType: is without the start argument of `radius_msg_get_attr_ptr`, which every caller leaves
  NULL.
- RadiusSessions.OutcomesBounded: is stated before the request counter wraps, as the sums of wrapped counters say
  nothing.
