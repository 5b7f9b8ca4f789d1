# A verified model of the VPN server's core and of its web client's encoders

The repository runs OpenVPN for the users of a cloud account. A configuration file says which networks and
ports groups and users may reach; the server turns it into one iptables chain per user, keeps track of client
connections, keeps a directory of certificates for the users' keys, and talks to OpenVPN over a management
socket. A web client makes keys and certificates in the browser and encodes them itself. This project states
and proves what these parts compute, keep and promise, in Dafny. `dafny verify dfyconfig.toml` checks it.

## The parts

Encoders of the web client:

- `Digits`, `Oid`, `Der`: positional digits with JavaScript's 32-bit operators, length octets, base-128 arcs,
  the encoding of a tree and an independent reader of section 8.1 of X.690.
- `Asn1Nodes`, `Certificates`: the same writer as it runs, on a heap of shared node objects, in two passes
  (`freeze`, `encode`) over a buffer of fixed size; and the certificate put together around signed octets.
- `Base64`, `Pem`, `Ssh`: the base64 codec, PEM lines and the SSH key blob.

From the configuration file to packets:

- `ConfigLines`, `ConfigFile`: text to lines, words and statements; statements to sections. `ConfigText`: what each
  line of the text means for the sections. `ConfigPrinter`: sections back to text. `Policy`: sections to one user's
  networks and ports.
- `Iptables`, `Firewall`: the kernel's chains with rule numbers that count from 1, and the code that changes
  them step by step through an in-memory mirror. `ChainEdits`: what one update makes of mirror and chain, by value,
  in step or not. `Pipeline`: expansion to rules.

The running server:

- `Sessions`: the two connection tables and the client events, by value (`Session`, `After`) and as the class
  that follows them, with the same record in both tables.
- `Management`: callers, command loop, OpenVPN and reader as a state machine; a run is any interleaving.
- `Enforcement`: client events through session tables and firewall calls to chains and jumps: which packets pass
  after any run (`RunServer`). `Operation`: the same with configuration updates and ends from the server's side
  between the events (`Operate`). `Service`: the same from the backend's configuration on (`RunConfigured`).
  `Reconfiguration`: the same with updates that read configuration, groups and keys anew (`RunReconfigured`).

Keys and certificates:

- `CertTables`: buckets of numbered certificates with swap-with-last removal and names that lead to them, by
  value. `CertIndex`: the same on the heap. `CertDirectory`: the files, as mended and as written.
  `FoundDirectory`: the same where files are left from before. `Probing`: the search for a client's certificate.
  `CertRecord`: what any run should leave.
- `Membership`, `Keys`: groups per user, the cache of keys, and the calls to the certificate manager.
  `KeyHistory`: the cache over runs of updates (`RunUpdates`), and for whom a login gets through (`LogIn`).
- `KeyIndex`, `KeyRuns`: updates as turns of a run; what is on record, what the buckets hold and whose key is
  accepted after any run (`RunInStep`, `MendedRunAccepts`, `WrittenRunAccepts`). `KeyService`: the updates of the
  key cache are such turns. `KeyWitnesses`: runs that end the server or leave a certificate behind.

`Wrappers`, `Sequences` and `Sorting` hold what several parts share.

Code that works in place is modelled in place: classes with the source's fields, loops with the source's
order of steps, iteration over Go maps as an arbitrary choice. Where what happens over a run matters, such a
class is proved equal, step by step, to a description by value, and the properties are proved of that.
Network addresses are numbers with mask bits and size; what prints a network is a parameter, injective where a
theorem says so. Backends, cryptography and the outside world are function parameters or arguments that carry
their answers.

## Where the code departs from what it is for

The model follows the code. Where a promised property fails for it, the exact condition under which it holds
is proved, the named lemma or contract gives a run on which it fails, and where a small repair is evident from
the code itself, a `mended` switch carries the full property.

- `UpdateUser` (internal/fw/firewall.go:226-242) passes positions counted from 0 to iptables, sends `--append`
  with a stray number to replace a rule with a port, deletes by one fixed number and never shortens the mirror.
  A rule that is no longer requested therefore stays (`WithdrawnRuleStays`); the chains are right after every
  request exactly if rules are only added (`AlwaysAsAskedIffGrows`). After a withdrawal a rule can even be lost that
  every later request asks for (`WantedRuleLost`); but nothing is granted that was never asked for
  (`NothingNeverAsked`, `PassesOnlyOnceAllowed`). `mended` is number + 1, `--replace`,
  `toDelete[i]` and a shorter mirror.
- The mask and size of a rule change places at internal/fw/firewall.go:145 and back at 265 and 293; no effect.
- `ConnectUser` for a user who never had a chain enters the address without its jump: its contract says so for
  every such user, and `AddressWithoutChain` gives a run of events that gets there.
- `updateConfig` (internal/vpn/manager.go:237) asks for users and an error, which no answer has together.
  `mended` asks for users and no error (`UpdateConfig`). Even then a user without access is not in the answer, so that
  one dropped from the configuration keeps chain and connection (`DroppedUserStays`, `LatestDecidesIff`).
- A REAUTH (internal/vpn/manager.go:383-400) neither looks for a connection to supersede nor whether the client is
  another user's: the exact conditions are `RenewedGoodIffFits` and `NextLinkedIff`. `mended` treats a REAUTH of
  anything but the user's own current connection like a CONNECT.
- `processClientEvent` (internal/vpn/manager.go:448, 460) dereferences absent records; the two cases that end
  the server are stated exactly, with a run (`LateDisconnectPanics`); `mended` passes them over. A REAUTH builds
  a record without the address, so the jump of that address is not taken back on DISCONNECT
  (`ReauthLosesAddress`); `mended` carries the address over.
- A connection the server ends itself is forgotten before it hangs up, so its address stays with the firewall
  (`EndedLosesAddress`); the condition is `EndedInOrderIff`. So it is with a record that a CONNECT replaces.
  `mended` takes the address back. With all this mended, `MendedAlwaysGood` and `Operate` hold of every run but for
  an address announced twice, changed, or announced for a user without a chain.
- `ParseConfig` (internal/config/configfile.go:401-406) loses every error of a section statement, because the
  next read overwrites it (`MalformedLineIgnored`, `LostError`). The reader drops a last line without a line end
  (internal/config/parser.go:32-40, `UnterminatedLineIgnored`).
- `SectionConfig.String` (internal/config/configfile.go:248, 261, 299) repeats the word `route` for routes with
  ports, and prints the NAT setting before the NAT routes and not at all for all networks: the exact condition under
  which its text is read back is `ReadsBackIff`. `mended` prints routes as they are read and the NAT setting last.
- A network granted once with no ports and once with port 80 ends with port 80 only; the merged table is the
  policy (`OpenIffNoPorts`).
- `Remove` (internal/ca/ca.go:251, 255) looks for `hash/index` where `addCertificate` wrote `hash.index`, so no
  file goes, and it leaves the name registered. Withdrawn keys stay accepted, and the file of a live certificate
  can be written over (`WithdrawnAcceptedLiveLost`); what the directory is instead is `WrittenIsDirectory`, and
  whose key is then accepted `WrittenRunAccepts`. `mended` uses the same name and forgets the name.
- `Remove` ends the server for a name that is not registered or whose place is gone. That happens when a
  rejected key goes (internal/vpn/config.go:228-231, `RejectedKeyStops`), when a key that was accepted before is
  listed again, rejected and goes again (`RelistedKeyStops`), and when two users have a key under one id
  (`SharedKeyStops`), each with either `Remove`. Listings that avoid the three cannot stop it
  (`NextDoesNotStop`, `RefreshAll`).
- An update that breaks off at a key it cannot fetch leaves the certificates it has made
  (internal/vpn/config.go:174-191). The retry makes them anew under the same names, so that the first ones can never be
  withdrawn (`LeftoverStaysAccepted`; `MendedRunAccepts` says which certificates these are).
- Forgetting the hash of a removed key also forgets it for another key with the same hash
  (`KeptKeyLosesHash`, `InverseKeptIff`).
- `client-kill` is sent without a wish for a response (internal/vpn/manager.go:406, 430). If OpenVPN answers it,
  the answer goes to the next caller (`StrayReply`, `PairedIffOnlyExpectedAnswered`).
- `intToBits` runs for ever on a negative 32-bit reading (`DigitLoopEnds`). An object identifier whose first two
  arcs exceed 127 together, or with a later arc of 2^31 or more, is not read back (`OidRoundTrip`).

## Model

| member | source | states |
|---|---|---|
| Digits.IntToBits | web/src/asn1.js:55-68 | Where the loop ends, its result is the positional notation of the 32-bit reading of the argument, most significant digit first, for 7 and for 8 bits. |
| Digits.Int32Reading | web/src/asn1.js:55-68 | The 32-bit reading of a number is from -2^31 to 2^31 - 1 and the same modulo 2^32. |
| Digits.DigitLoopEnds | web/src/asn1.js:62-65 | The digit loop ends for a number if and only if its 32-bit reading is not negative. |
| Digits.NegativeNeverEnds | web/src/asn1.js:62-65 | After any number of rounds a negative reading is still negative and not zero. |
| Digits.DigitsFaithfulBelowLimit | web/src/asn1.js:55-68 | Among the numbers for which the loop ends, the digits stand for the number itself if and only if it is below 2^31. |
| Digits.PositionalCorrect | web/src/asn1.js:55-68 | The digits stand for the number, each is below the radix, and there is no leading zero except for zero itself. |
| Digits.PositionalMinimal | web/src/asn1.js:55-68 | No digit string with the same value is shorter, and none of the same length differs. |
| Digits.ValueInjective | web/src/asn1.js:55-68 | Two digit strings of one length with one value are equal. |
| Digits.EncodeLength | web/src/asn1.js:70-78 | Gives the short form up to 127 and the count-prefixed big-endian form above, for every length below 2^31. |
| Digits.LengthRoundTrip | web/src/asn1.js:70-78 | A reader of section 8.1.3 of X.690 gets the length back and leaves any suffix untouched. |
| Digits.LengthMinimal | web/src/asn1.js:70-78 | Section 10.1 of X.690: every octet string that reads as the same length is at least as long, and equal if it is as long. |
| Digits.KnownLengths | web/src/asn1.js:70-78 | Octet by octet: the short form, and the long forms of lengths of one and of two octets. |
| Digits.LengthSizeAgrees | web/src/asn1.js:46-53 | The count derived from hexadecimal digits is the size of the length octets, for every length. |
| Digits.HexPairsAreOctets | web/src/asn1.js:50-51 | Half the hexadecimal digits, rounded up, is the number of base-256 digits. |
| Oid.EncodeOid | web/src/asn1.js:166-185 | The nested loops produce the joint first octet, stored modulo 256, followed by the marked base-128 digits of every further arc as the 32-bit operators take it. |
| Oid.SubidentifierRoundTrip | web/src/asn1.js:175-180 | A base-128 subidentifier in front of any suffix is read back together with that suffix. |
| Oid.SubidentifiersRoundTrip | web/src/asn1.js:172-181 | A concatenation of subidentifiers decodes uniquely (section 8.19 of X.690). |
| Oid.OidRoundTrip | web/src/asn1.js:166-185 | An object identifier whose digit loops end is read back if and only if its first two arcs are legal and fit one octet below 128 and every later arc is below 2^31. |
| Oid.KnownOid | web/src/asn1.js:166-185 | {1 2 840 113549} is written as the octets 2A 86 48 86 F7 0D. |
| Oid.FirstOctetSwallowed | web/src/asn1.js:170 | A first octet with the continuation bit swallows the next arc: the reader gets one subidentifier fewer than were written. |
| Der.RoundTrip | web/src/asn1.js:81-138 | For every finite tree and every suffix, reading the encoding followed by the suffix gives the tree, raw leaves resolved, and the suffix. |
| Der.RoundTripAll | web/src/asn1.js:132-137 | The same for a sequence of trees: the items of a sequence come back one by one. |
| Der.DecodeExtends | web/src/asn1.js:223-234 | What a reader accepts it accepts in front of anything: why a complete encoding may be embedded as raw octets. |
| Der.PrefixFree | web/src/asn1.js:398-405 | No encoding is a proper prefix of another, and equal encodings come from equal trees. |
| Der.ReadsPrefix | web/src/asn1.js:398-405 | Whatever starts with an encoding reads as its tree and what follows it. |
| Der.ShortestEncoding | web/src/asn1.js:70-138 | Every octet string that reads as the same tree is at least as long as the encoding written, and equal if it is as long (section 10.1 of X.690). |
| Der.DecodeWellFormed | web/src/asn1.js:81-138 | The reader yields trees the writer can encode, and reads its own results back unchanged. |
| Asn1Nodes.ByteBuffer.constructor | web/src/asn1.js:4-7 | A new buffer has the size asked for and nothing written. |
| Asn1Nodes.ByteBuffer.PutOctet | web/src/asn1.js:12-13 | The written part grows by exactly that octet. |
| Asn1Nodes.ByteBuffer.PutOctets | web/src/asn1.js:14-22 | The written part grows by exactly those octets; what was written stays. |
| Asn1Nodes.ByteBuffer.PutElement | web/src/asn1.js:9-27 | Type, length octets and content are appended in that order. |
| Asn1Nodes.Node.constructor | web/src/asn1.js:141-151 | A leaf has correct length octets from the start; no object identifier is frozen. |
| Asn1Nodes.Node.Add | web/src/asn1.js:112-115 | The item goes to the end of the sequence. |
| Asn1Nodes.Freeze | web/src/asn1.js:87-185 | On any finite acyclic graph of nodes, shared or not, frozen before or not, every node below the argument ends with the lengths its tree asks for, and nodes already frozen stay correct. |
| Asn1Nodes.FreezeTag | web/src/asn1.js:87-90 | A tag stores the length of its value's encoding. |
| Asn1Nodes.FreezeSequence | web/src/asn1.js:121-130 | A sequence stores the total of its items' encodings and the length octets for it. |
| Asn1Nodes.FreezeItems | web/src/asn1.js:122-128 | The running total over the items is the length of their joint encoding. |
| Asn1Nodes.FreezeOid | web/src/asn1.js:166-185 | An object identifier computes its octets once; a second freeze relies on the flag and is right to. |
| Asn1Nodes.LengthIsEncodedLength | web/src/asn1.js:92-189 | After freezing, the length getter of every node is the length of the node's encoding. |
| Asn1Nodes.EncodeNode | web/src/asn1.js:96-137 | encode() appends exactly the encoding of the node's tree, at every node; where all nodes are readable, a reader sees the node in what was appended, class by class, and nothing more. |
| Asn1Nodes.EncodeLeaf | web/src/asn1.js:155-379 | Every class without children writes its type octet, the length it announced and its content: an integer 02, a bit string 03 with a zero octet in front, an octet string 04 as it is, null 05 00, an object identifier 06, a text its own type. |
| Asn1Nodes.EncodeItems | web/src/asn1.js:134-136 | The items are written in order and nothing else is. |
| Asn1Nodes.EncodeAsn1 | web/src/asn1.js:398-405 | The buffer sized from the root is filled with the encoding of the root's tree, with no gap and no overflow. For readable nodes a reader gets a tree back that shows every node, class by class, with its own type octet and content, object identifiers arc by arc, and the items of a sequence in order. |
| Asn1Nodes.WellFormedIff | web/src/asn1.js:81-138 | A node's tree is well formed if and only if the node's type octet fits its class, its raw octets are one complete encoding, and its items' trees are well formed. |
| Asn1Nodes.NodesReadBack | web/src/asn1.js:398-405 | For nodes that are all readable, what is written for any of them is read back as its tree, in front of anything. |
| Asn1Nodes.TreeShows | web/src/asn1.js:81-379 | What a reader gets back for a readable node on any graph shows the node and all below it: integer 02, bit string 03 with its zero octet, octet string 04, null 05, object identifier 06 that reads as its arcs, texts and sequences by their own type with content and items in order. |
| Asn1Nodes.ShortLeaf | web/src/asn1.js:155-379 | The octets of short leaves, literally: 05 00 for null, and type, length and content for integers, bit strings, octet strings and texts. |
| Certificates.BuildCertificate | web/src/asn1.js:389-395 | The result is the encoding of signed part, algorithm and signature, with the algorithm's object shared between the two encodings. A reader sees a sequence 30 of the signed part, a sequence 30 with the algorithm, and a bit string 03 with the signature of the very octets that stand for the signed part inside. |
| Certificates.EncodeCertificate | web/src/asn1.js:392-395 | The nodes put around the signed octets encode to the three-part certificate. |
| Certificates.SignedOctetsInside | web/src/asn1.js:389-392 | Embedding the signed octets raw gives the same certificate as embedding their tree, and they lie in it untouched. |
| Certificates.CertificateRoundTrip | web/src/asn1.js:389-395 | Reading the certificate in front of any suffix gives the signed tree, the algorithm, the signature and the suffix. |
| Certificates.TreeOfExtends | web/src/asn1.js:196-221 | Adding nodes to a graph, around shared ones, does not change what the old nodes stand for. |
| Base64.Encode | web/src/util.js:5-37 | Section 4 of RFC 4648: each six bits of the input, from left to right and filled with zeros at the end, give the character of their number. With padding there are four characters for every three octets begun, the last being '=' for exactly the octets missing of the last three; without it there is no padding. |
| Base64.SextetsAreBits | web/src/util.js:10-30 | The sextets are the bits of the octets, six at a time, and there are as many as it takes. |
| Base64.Decode | web/src/util.js:38-82 | The array of floor(0.75 * length) places after stripping is filled exactly, with what the sextets stand for. |
| Base64.StripPadding | web/src/util.js:39-45 | Exactly the run of '=' at the end goes. |
| Base64.SextetsRoundTrip | web/src/util.js:10-79 | Regrouping octets to sextets and back is the identity for every length, whatever is left over. |
| Base64.ReversibleRoundTrip | web/src/util.js:5-82 | For a reversible alphabet, decode undoes encode for every octet string, padded or not. |
| Base64.RoundTripIffReversible | web/src/util.js:5-100 | decode undoes encode on all octet strings if and only if the reverse table undoes the alphabet. |
| Base64.IrreversibleFails | web/src/util.js:85-100 | For every alphabet with a character the table does not undo, an octet string that does not come back. |
| Base64.ClientAlphabets | web/src/util.js:86-99 | The standard alphabet is A to Z, a to z, 0 to 9, '+' and '/', the URL alphabet ends in '-' and '_' instead; both are reversible, the 62-character one is not. |
| Pem.ToPem | web/src/keyreg.js:157-168 | The result is a BEGIN line with the label, the padded base64 of the octets with a line end after every 64th column and at the end, and an END line with the label. |
| Pem.LinesWrapped | web/src/keyreg.js:162-164 | Section 2 of RFC 7468: a line end after every 64th column and after the last character, and nowhere else. |
| Pem.LinesJoined | web/src/keyreg.js:162-164 | Dropping the line ends gives the unbroken text. |
| Pem.PemRoundTrip | web/src/keyreg.js:157-168 | Dropping markers and line ends and decoding gives back the octets, for every octet string. |
| Ssh.MPInt.constructor | web/src/asn1.js:444-452 | The announced length counts the extra octet exactly if the top bit is set. |
| Ssh.MPInt.Write | web/src/asn1.js:454-467 | On a zeroed buffer, skipping the prefix octet writes length and signed octets, and the rest stays zero. |
| Ssh.KeyBlob | web/src/asn1.js:476-490 | The buffer has exactly the size of the three fields, and they fill it. |
| Ssh.ExportPublicKey | web/src/asn1.js:470-493 | The line is the type, the base64 of the blob of the decoded exponent and modulus, and a line end. |
| Ssh.BlobRoundTrip | web/src/asn1.js:476-490 | Parsing string, mpint, mpint (section 6.6 of RFC 4253) returns the type, which is "ssh-rsa", and both signed octet strings. |
| Ssh.SignedValue | web/src/asn1.js:446-450 | The signed form never reads as negative and stands for the magnitude. |
| Ssh.SignedMinimal | web/src/asn1.js:446-450 | The mpint is minimal (section 5 of RFC 4251) if and only if the magnitude has no superfluous leading zero octet. |
| Ssh.ExportRoundTrip | web/src/asn1.js:470-493 | From base64url text to the line: its payload parses to the same exponent and modulus. |
| Iptables.CoversLeadingBits | internal/fw/firewall.go:265-270 | A network covers exactly the addresses that agree with its own on the leading bits, as many as its mask has. |
| Iptables.CoversBlock | internal/fw/firewall.go:265-270 | That is one block of 2^(size - mask) addresses: with the whole mask just its own address, with none every address of the family. |
| Iptables.Tables.Append | internal/fw/firewall.go:264-286 | A rule goes to the end of an existing chain; other chains stay. |
| Iptables.Tables.Replace | internal/fw/firewall.go:296-302 | Rule numbers count from 1; any other number changes nothing. |
| Iptables.Tables.Delete | internal/fw/firewall.go:288-290 | The rule of that number, counted from 1, goes and the later ones move up. |
| Iptables.Tables.DeleteChain | internal/fw/firewall.go:254-262 | Only an empty chain that nothing jumps to goes. |
| Iptables.Tables.DeleteJump | internal/fw/firewall.go:110-134 | One occurrence of an equal jump goes, the order of the rest being immaterial. |
| ChainEdits.SyncedUpdateIff | internal/fw/firewall.go:140-248 | From mirror and chain in step, an update leaves exactly the requested rules if and only if it is mended or every rule held before is requested again; then they are in step again, and otherwise some withdrawn rule is still granted. |
| ChainEdits.SyncedGrows | internal/fw/firewall.go:213-245 | As written, if every rule is requested again, mirror and chain end as one list of exactly the requested rules. |
| ChainEdits.SyncedWithdraws | internal/fw/firewall.go:213-245 | As written, if some rule is not requested again, one such rule is in the chain afterwards. |
| ChainEdits.RewrittenWithin | internal/fw/firewall.go:213-245 | As written, on any mirror and chain: nothing enters either but what was there or is requested; the mirror never gets shorter and the chain never gains on it. |
| ChainEdits.StaleGap | internal/fw/firewall.go:216-222 | Ascending positions are at least as far apart as their places in the list. |
| Firewall.Firewall.Partition | internal/fw/firewall.go:214-222 | What is new, and the ascending positions of what is not requested or not for the first time, on any list. |
| Firewall.Firewall.ReplaceRule | internal/fw/firewall.go:292-314 | Succeeds only for a rule without a port and a number that happens to be valid, and then changes the rule before that position; the form for ports always fails. |
| Firewall.Firewall.ReplaceStale | internal/fw/firewall.go:226-236 | As written, on any mirror and chain and in any order of the new rules: mirror and chain are what the loop makes of them by value. |
| Firewall.Firewall.DeleteStale | internal/fw/firewall.go:238-242 | As written, on any mirror and chain: one number is deleted again and again, and the mirror moves up from there with its last rule repeated. |
| Firewall.Firewall.UpdateChain | internal/fw/firewall.go:213-245 | As written, on any mirror and chain, in step or not: both are what the three loops make of them by value, for some order of the new rules. |
| Firewall.Firewall.ReplaceMended | internal/fw/firewall.go:226-236 | With numbers and command mended, replacing from the front keeps the recorded positions valid, mirror and chain equal and duplicate-free, and installs every new rule. |
| Firewall.Firewall.DeleteMended | internal/fw/firewall.go:238-242 | With the index and the shortening mended, deleting the rest in descending order leaves exactly the requested rules, position by position. |
| Firewall.Firewall.UpdateChainMended | internal/fw/firewall.go:213-245 | The mended update always ends with mirror and chain equal and granting exactly what is requested. |
| Firewall.Firewall.CreateUser | internal/fw/firewall.go:192-212 | A new chain grants exactly the requested rules and the mirror equals it. |
| Firewall.Firewall.DropChain | internal/fw/firewall.go:254-262 | The chain goes unless something jumps to it; other chains stay. |
| Firewall.Firewall.UpdateUser | internal/fw/firewall.go:140-248 | On any mirror and chain it does exactly what the update does by value. Where they are in step, mirror and chain agree afterwards and grant exactly what is requested if and only if the loops are mended or every rule held before is requested again; no other user is affected, and the test that skips an update is sound. |
| Firewall.RunUpdates | internal/fw/firewall.go:140-248 | Any sequence of requests, whatever they take away, as written and mended, is a run of updates by value; with the mended loops, or if no request takes a rule away, chain and mirror end as one list of the rules asked for last. |
| Firewall.AlwaysAsAskedIffGrows | internal/fw/firewall.go:140-248 | Over any run of updates the chains grant exactly what was asked for after every single request if and only if the loops are mended or no request takes a rule away. |
| Firewall.NothingNeverAsked | internal/fw/firewall.go:140-248 | Over any run, even as written and after any number of withdrawals: a chain holds no rule that was never asked for, and is never longer than its mirror. |
| Firewall.MirrorNeverShrinks | internal/fw/firewall.go:213-245 | As written, over any run, a mirror never gets shorter and the chain of its user never goes away. |
| Firewall.WithdrawnRuleStays | internal/fw/firewall.go:213-245 | In every run as written of the two requests [rule] and [], the chain grants exactly the rule after the first and after the second, which asks for nothing. |
| Firewall.WantedRuleLost | internal/fw/firewall.go:213-245 | In every run as written of the requests [a], [a, b], [a, b, c], [b], [b], the chain ends with c alone: the rule that four requests in a row ask for is lost, and a withdrawn one is granted. |
| Firewall.ReplaceStep | internal/fw/firewall.go:226-231 | Replacing the first stale rule leaves the later stale positions as recorded. |
| Firewall.DeleteStep | internal/fw/firewall.go:238-242 | Deleting at the last stale position leaves the earlier stale positions as recorded. |
| Firewall.Firewall.ConnectUser | internal/fw/firewall.go:99-120 | One jump per connected address, to its user, is kept if and only if the user has a chain; a previous owner's jump goes. Without a chain the address is entered as connected and has no jump at all. |
| Firewall.Firewall.DisconnectUser | internal/fw/firewall.go:122-138 | The jumps stay one per connected address; a late disconnect by a former owner changes nothing. |
| Firewall.Firewall.ForwardDecision | internal/fw/firewall.go:99-138 | A packet passes if and only if some connected address, by its mask, covers the source and a rule of that address's user matches. |
| Policy.AddRoute | internal/config/configfile.go:318-329 | The table keeps, for every network granted, the union of the ports granted. |
| Policy.AddSectionRoutes | internal/config/configfile.go:128-140 | Adding each route of a section twice, as the code does, adds its grant once. |
| Policy.AddSubnets | internal/config/configfile.go:146-152 | Each named subnet that is known is granted with its ports; unknown names grant nothing. |
| Policy.MergeUnique | internal/config/configfile.go:111-171 | The set of grants determines the table. |
| Policy.OpenIffNoPorts | internal/config/configfile.go:318-329 | A network is open for every port if and only if no grant for it names a port. |
| Policy.Collect | internal/config/configfile.go:81-97 | The sections collected are the global one and those of the declared groups; only the global one exactly if no group is declared. |
| Policy.Arrange | internal/config/configfile.go:81-109 | Fails exactly for a user without a section and without a declared group; else gives the applicable sections in global, group, user order. |
| Policy.Merge | internal/config/configfile.go:111-171 | DNS and NAT are the last value set in order, and the table merges exactly the grants of the sections under that NAT setting. |
| Policy.GetUserConfig | internal/config/configfile.go:78-194 | Fails exactly for a user with neither a section nor a group that has one. Else the networks listed are exactly those that a line of the global section, of a section of a group of the user or of the user's own section names, that a known subnet named there has, that NAT adds, or every subnet if none is named, each with exactly the ports it is named with; DNS and NAT are as last said, by the user's section, else the group opened last, else the global one; in the order of the printed networks. |
| Policy.DescribesSays | internal/config/configfile.go:78-194 | What the merged table of the applicable sections describes is what these sections say, line by line, in both directions. |
| Policy.LastDecides | internal/config/configfile.go:99-124 | Sorted by kind and order, the last section that makes a setting is the user's own, else the group of the highest order, else the global one. |
| Policy.ListRoutes | internal/config/configfile.go:178-189 | Each network of the table is in exactly one route, with exactly its ports. |
| Policy.Determined | internal/config/configfile.go:78-194 | Two results for the same sections mean the same, whatever order groups and maps were visited in. |
| Policy.GroupsAsSet | internal/config/configfile.go:85-91 | Order, repetition and undeclared members of the group list do not count. |
| Policy.DecidesUnique | internal/config/configfile.go:118-124 | Among ordered sections one value decides a setting. |
| Policy.SameOrder | internal/config/configfile.go:191 | A set of networks with distinct texts has one sorted list. |
| Sorting.TextLessMeans | internal/config/configfile.go:191 | One text is before another if and only if it is a proper beginning of it or has the smaller character at the first place where they differ. |
| Sorting.SortSlice | internal/config/configfile.go:99-105 | Ascending and a permutation, the order of equal elements left open. |
| Pipeline.Expand | internal/vpn/manager.go:291-302 | The rules are, route by route, one per port or one for all ports. |
| Pipeline.RouteRulesMatch | internal/vpn/manager.go:294-302 | The rules of a route match a packet exactly if the network covers it and its port is listed, port 0 or no port meaning any. |
| Pipeline.ExpansionFaithful | internal/vpn/manager.go:291-305 | The expanded rules match exactly the packets the merged table allows. |
| Pipeline.UpdateFirewall | internal/vpn/manager.go:291-305 | The chain holds the expanded rules afterwards if and only if the loops are mended or no rule is withdrawn; mirrors and chains of other users stay. |
| Pipeline.ApplyPolicy | internal/vpn/manager.go:291-305 | From sections to packets: the configuration returned is that of the user's sections, routes and DNS setting; the packets accepted for the user are exactly those the merged table allows, unless a rule is withdrawn from the update as written; nothing changes for anyone if the user is denied, and never for other users. |
| Pipeline.LatestPolicyHolds | internal/vpn/manager.go:291-305 | While the firewall is faithful to the run, a source covered only by addresses of one user gets through exactly what that user's latest policy allows. |
| Sessions.Manager.AuthorizeClient | internal/vpn/manager.go:349-416 | Denial, CONNECT and REAUTH change tables and commands as by value, in any state; a login that succeeds puts one and the same new record, of that user and that id, into both tables. |
| Sessions.Manager.LeaveTables | internal/vpn/manager.go:383-392 | A client that connects again leaves both tables, its user's entry only if it is this client's; the tables go on sharing their records. |
| Sessions.OneLiveConnection | internal/vpn/manager.go:383-407 | Of one user, at most one connection has not been told to go. |
| Sessions.ConnectedGood | internal/vpn/manager.go:383-407 | A CONNECT keeps: current connection of its user or told to go, never both. |
| Sessions.RenewedGoodIffFits | internal/vpn/manager.go:397-400 | A REAUTH keeps the tables in order if and only if the user's current connection is that client or none, and the client is nobody else's. |
| Sessions.NextGoodIffFits | internal/vpn/manager.go:436-472 | An event that does not end the server keeps the tables in order if and only if it is not a REAUTH that does not fit. |
| Sessions.RunGoodIffFits | internal/vpn/manager.go:307-319 | Over any run that does not end the server, the tables are in order throughout if and only if every REAUTH fits the state it finds. |
| Sessions.NextLinkedIff | internal/vpn/manager.go:436-472 | An event that does not end the server keeps each user's entry that of its client if and only if it is not a REAUTH for another user than the one whose current connection the client is. |
| Sessions.RunLinkedIff | internal/vpn/manager.go:307-319 | Over any run that does not end the server, that holds throughout if and only if no REAUTH of that kind occurs. |
| Sessions.Manager.SharedIffLinked | internal/vpn/manager.go:397-400 | In every state the manager can reach, each user's entry is the very object stored for its client if and only if it is that of its client by value. |
| Sessions.MendedAlwaysGood | internal/vpn/manager.go:307-319 | With the handlers mended no run of events ends the server or leaves the tables out of order. |
| Sessions.Manager.DisconnectUser | internal/vpn/manager.go:418-434 | The user's current connection leaves both tables and is told to go; nothing happens without one; the tables go on sharing their records. |
| Sessions.Manager.ProcessClientEvent | internal/vpn/manager.go:436-472 | Every event changes tables, addresses, commands and firewall calls as by value, in any state, and ends the server exactly for an ADDRESS of an unknown client and a DISCONNECT of a client whose user has no current connection. Each user's entry stays the very record of its client exactly unless a REAUTH usurps somebody's current connection. |
| Sessions.Manager.HandleEvents | internal/vpn/manager.go:307-319 | After any run of events the manager is in the state the events lead to one by one, and the run breaks off exactly at the first event that ends the server; the tables still share their records if no REAUTH has usurped a connection. |
| Sessions.LateDisconnectPanics | internal/vpn/manager.go:451-462 | The run CONNECT a, CONNECT b, DISCONNECT b, DISCONNECT a of one user ends the server, at its last event. |
| Sessions.Manager.RefreshUser | internal/vpn/manager.go:239-277 | The firewall is called with the new policy, and the user's connection goes exactly if it disagrees with it; the tables go on sharing their records. |
| Sessions.Manager.UpdateConfig | internal/vpn/manager.go:228-289 | As written nothing happens for any answer of the update. With the guard mended: exactly the current connections that disagree go, exactly their clients leave the table, each gets one kill and no other command is sent, every user of the update gets one firewall call, and the tables go on sharing their records. |
| Sessions.RefreshedAllMeans | internal/vpn/manager.go:238-278 | Whatever the order of the map, the loop removes exactly the disagreeing connections and their clients, and sends exactly their kills and one firewall call per user. |
| Sessions.CompareRoutes | internal/vpn/manager.go:251-269 | The positional comparison finds a difference exactly if lengths, addresses or mask bits differ somewhere. |
| Sessions.StaysIffSameNetworks | internal/vpn/manager.go:243-271 | Within one address family, a connection stays if and only if its key is listed, its DNS push is unchanged and the set of pushed networks is unchanged. |
| Sessions.RoutesMatchIffSets | internal/vpn/manager.go:251-269 | Because route lists are duplicate-free and canonically sorted, comparing them place by place compares the sets of networks. |
| ConfigLines.Parser.ReadStatement | internal/config/parser.go:30-90 | One call yields the next statement, end or error of the remaining text, skipping blank and comment lines, and moves on exactly past it. |
| ConfigLines.FieldsSplit | internal/config/parser.go:48-52 | The fields split the line: white space in front, non-empty white space between them, white space behind, and none within; so they are its maximal runs, for all the white space of Unicode. |
| ConfigLines.FieldsUnique | internal/config/parser.go:48-52 | No other list of words splits the line. |
| ConfigLines.SpacesAre | internal/config/parser.go:46 | What separates words is exactly the white space of Unicode, code point by code point. |
| ConfigLines.CommentIgnored | internal/config/parser.go:42-46 | What follows the first `#` of a line changes nothing, whatever it says. |
| ConfigLines.UnterminatedLineIgnored | internal/config/parser.go:32-40 | What follows the last line end is never read, whatever it says. |
| ConfigLines.StatementsExtend | internal/config/parser.go:30-90 | The statements of a text that ends with a line end, followed by more, are its statements followed by those of the rest in the section it leaves open; an unreadable line ends both alike. |
| ConfigLines.LineInserted | internal/config/parser.go:56-67 | Inserting an indented line into an open section inserts its one statement there, and changes nothing else but line numbers. |
| ConfigFile.SectionConfig.ParseSection | internal/config/configfile.go:411-476 | A well-formed statement extends the section; a malformed one is an error and leaves it as it was. `dns on`, `dns off`, `nat on` and `nat off` make just these settings. |
| ConfigFile.File.Accept | internal/config/configfile.go:360-401 | One round of the loop steps the configuration by one statement, or rejects it. |
| ConfigFile.ParseConfig | internal/config/configfile.go:345-409 | Succeeds exactly if every line can be read and every statement has a known section and a valid global setting; then yields the configuration of the statements. |
| ConfigFile.GroupsOrdered | internal/config/configfile.go:374-385 | Groups get distinct order numbers 0 to n-1, across reopened sections. |
| ConfigFile.GroupIsItsStatements | internal/config/configfile.go:374-401 | A group opened several times is one section with all its statements in order, and exactly the opened groups exist. |
| ConfigFile.MalformedLineIgnored | internal/config/configfile.go:401-406 | On the text: a malformed line inserted anywhere in an open section leaves the result of ParseConfig as it is without the line, whatever precedes and follows and whether that is a configuration or an error. |
| ConfigFile.LastLineIgnoredIff | internal/config/configfile.go:401-476 | At the end of a file that parses, a section line leaves the configuration unchanged if and only if it is malformed or repeats what the section says. |
| ConfigFile.LostError | internal/config/configfile.go:401-406 | The file "group a", " dns maybe" is accepted and means the same as "group a". |
| ConfigText.EmptyText | internal/config/configfile.go:345-357 | A file without lines is an empty global section with nothing set. |
| ConfigText.HeaderLine | internal/config/parser.go:69-85 | At the end of any file that is read, a line in the first column: `group`, `user` or `global` opens that section, new ones empty and new groups after all others, and changes nothing else; any other such line makes the file unreadable. |
| ConfigText.DnsLine | internal/config/configfile.go:458-473 | At the end of any file that is read, in an open section: `dns on` sets DNS to on and `dns off` to off; with other words the line changes nothing. Nothing else changes, and the section stays open. |
| ConfigText.NatLine | internal/config/configfile.go:422-449 | In the same way `nat on` sets NAT for all networks and `nat off` to off; a network with ports sets it to on and adds the route to the NAT routes; anything else changes nothing. |
| ConfigText.RouteLine | internal/config/configfile.go:450-457 | In the same way `route` with a network and ports adds exactly this route; without a network or with a word that is no port it changes nothing. |
| ConfigText.SubnetLine | internal/config/configfile.go:412-421 | In the same way a word that starts with `subnet-` or `pcx-` adds the subnet of this name with the ports. |
| ConfigText.OtherLine | internal/config/configfile.go:411-476 | In the same way any other word changes nothing. |
| ConfigText.GlobalLine | internal/config/configfile.go:478-553 | In the global section `watch`, `net`, `route53` and `key-strength` change no section, and make the file unreadable if their values are not acceptable. |
| ConfigText.PortReads | internal/config/configfile.go:556-570 | A word is read as a port if and only if it is the decimal text of a number below 65536, with any zeros in front. |
| ConfigText.PlainLine | internal/config/parser.go:46-67 | A tab and words with blanks between them are a line that says exactly these words. |
| ConfigText.PlainHeader | internal/config/parser.go:69-85 | Two words with a blank between them, in the first column, are the header of a section. |
| ConfigText.OpenedLater | internal/config/configfile.go:374-385 | A group first opened further down in a file comes later in the order, however the file goes on. |
| ConfigText.LastGroupDecides | internal/config/configfile.go:99-124 | Of a user's groups that set DNS, or NAT, the one first opened last in the file decides, unless the user's own section does. |
| ConfigPrinter.ReadsBackIff | internal/config/configfile.go:230-309 | Under the header of a new section, the text SectionConfig.String prints is read back as the section if and only if no route has ports and the NAT setting is `On` exactly for sections with NAT routes and never that for all networks; mended, for every section whose NAT setting fits its NAT routes. |
| ConfigPrinter.SectionRead | internal/config/configfile.go:230-309 | What is read back of a printed section, field by field: as written the routes with ports are lost and the NAT setting is the one the lines leave. |
| ConfigPrinter.AllFitting | internal/config/configfile.go:411-476 | In every section that is read from a file the NAT setting fits the NAT routes, so that the mended text reads back. |
| Membership.InvertGroups | internal/vpn/config.go:85-105 | Fails exactly if some group cannot be fetched; else lists the users with a section or a group, each with exactly the declared groups whose members the backend lists it among. |
| Membership.AddMembers | internal/vpn/config.go:92-94 | Each listed user gains the group and nobody else does. |
| Keys.UserKeys.Apply | internal/vpn/config.go:203-226 | The ids become the kept and the new ones; hashes of removed ids are forgotten, new hashes lead to a new id; the removed ids are returned once each. |
| Keys.InverseKeptIff | internal/vpn/config.go:210-219 | The two tables stay inverse if and only if no key that stays has the hash of one that goes, unless a new key brings the hash back. |
| Keys.LeadsKept | internal/vpn/config.go:210-219 | Every update keeps: whatever a hash leads to is a recorded id with that hash. |
| Keys.KeptKeyLosesHash | internal/vpn/config.go:210-213 | Two ids of one key, one of them delisted: afterwards the hash of the one that stays leads nowhere. |
| Keys.HashLeadsBack | internal/vpn/config.go:216-219 | Where accepted keys have different hashes, each hash leads back to its key. |
| Keys.FindsIffOwns | internal/vpn/config.go:243-268 | Where the tables are inverse and hashes distinct, a hash finds a listed key if and only if a listed key on record has it. |
| Keys.NothingToDo | internal/vpn/config.go:150-159 | Equal counts and no unknown id mean equal sets: skipping the update is sound. |
| Keys.UserManager.FetchNewKeys | internal/vpn/config.go:152-191 | Each new id gets the hash of the certificate made for it, or none if missing or too weak; one certificate is made per accepted id, or for some of them if a key cannot be fetched; the certificate manager is where these calls lead. |
| Keys.UserManager.WithdrawAll | internal/vpn/config.go:228-231 | Withdraws the ids in order, and stops the server exactly if the certificate manager, in the state it then has, stops at one of them. |
| Keys.UserManager.UpdateUserKeys | internal/vpn/config.go:130-235 | It fails exactly if a new key cannot be fetched. Otherwise the user's ids are exactly the listed ones with old or new hashes, nobody else is touched, the calls are one per accepted new id and then one per id that goes, and the server stops exactly where these calls stop the certificate manager. |
| Keys.UserManager.UpdateKeys | internal/vpn/config.go:130-239 | Each member with listed keys has one round, in some order; those up to the failing or stopping one are brought up to date and everyone else is unchanged. It fails exactly at a member whose list or keys cannot be fetched, named, and stops exactly where the calls of the rounds stop the certificate manager, in the last round. |
| Keys.UserManager.BuildUserConfigs | internal/vpn/config.go:71-128 | Exactly the users with access and listed keys are answered, each with its keys and the policy of its sections. Unless it stops the server, it fails if and only if the networks or a group cannot be fetched, then before any key is touched, or the keys of some user, the named one, cannot; it stops exactly where the calls of its rounds do. The keys of the users it reached are brought up to date and nobody else's; configuration and networks are in place once the networks are known; the groups of every member are remembered exactly if it comes through. |
| Keys.ConfigsFor | internal/vpn/config.go:113-121 | Users found by the inversion are never denied a configuration. |
| Keys.UserManager.AuthenticateUser | internal/vpn/config.go:241-295 | Succeeds exactly if the hash leads to an id that is still listed and the groups, told now or remembered, are not denied; then with that user's policy and an id on record with that hash. Where the tables are inverse and hashes distinct, any listed key on record with the hash is enough. The groups told are remembered even if denied. |
| KeyHistory.HistoryLeads | internal/vpn/config.go:203-219 | Over any run of updates from an empty cache, whatever a hash leads to is a recorded id of that user with that hash. |
| KeyHistory.HistoryInverseIff | internal/vpn/config.go:203-219 | Over any run of updates from an empty cache, the two tables of every user are inverse throughout if and only if no update takes the hash of a key that stays. |
| KeyHistory.DistinctKeepsHashes | internal/vpn/config.go:210-213 | Where accepted keys have different hashes no update does. |
| KeyHistory.LoginAfterHistory | internal/vpn/config.go:241-272 | After any run in which the accepted keys of each user always had different hashes, a hash finds a listed key if and only if a listed key on record has it. |
| KeyHistory.HistoryRecords | internal/vpn/config.go:130-239 | After any run the ids on record for a user are exactly those last listed, each with the hash it came with when it was first listed since. |
| KeyHistory.RunUpdates | internal/vpn/config.go:71-128 | buildUserConfigs any number of times on a new user manager, up to exactly the first call that stops the server. Each call fails exactly with the backend, asks the certificate manager for its rounds and stops exactly where they do, and brings up to date exactly the users it reached: all with access and listed keys if it comes through. So the run is a history, and the configuration and groups remembered are the last ones. |
| KeyHistory.LogIn | internal/vpn/config.go:241-295 | After such a run a login gets through if and only if its hash leads to a key still listed and the configuration in place does not deny the groups, told now or remembered from the last call that came through; it names a key last listed for the user in an update with that hash. If no user ever had two accepted keys of one hash, a login gets through for any such key. |
| CertIndex.CertificateManager.AddCertificate | internal/ca/ca.go:213-238 | On the heap of shared entries: tables, places and directory change as by value, and one new entry is made. |
| CertIndex.CertificateManager.SwapOut | internal/ca/ca.go:252-258 | The last entry takes the freed place with its own number corrected, which every table that shares it sees. |
| CertIndex.CertificateManager.Remove | internal/ca/ca.go:240-263 | It stops the server exactly for an unregistered name or one whose place is gone, and otherwise changes tables, places and directory as by value. |
| CertIndex.CertificateManager.Run | internal/ca/ca.go:213-263 | Any run of additions and removals, whatever their names, is the run by value, up to exactly the first removal that stops the server. |
| CertTables.SwapRemovedMultiset | internal/ca/ca.go:252-258 | Swap-with-last removal removes one occurrence of the element and keeps the rest. |
| CertTables.AddedPlaces | internal/ca/ca.go:213-238 | An addition moves nothing that is at its place, and the new entry is at its own. |
| CertTables.TakenOutPlaces | internal/ca/ca.go:245-258 | A removal takes exactly the entry at that place: every other entry stays at its, possibly new, place with its certificate. |
| CertTables.RemovedOwn | internal/ca/ca.go:240-263 | Under a live name a removal never stops the server, takes the name's own certificate and leaves every other entry in place, with either Remove. |
| CertTables.MendedAllLive | internal/ca/ca.go:213-263 | With the mended Remove every name stays live over any run, so that exactly an unregistered name stops the server. |
| CertTables.WithdrawnTwiceStops | internal/ca/ca.go:240-263 | From any state, a name added, withdrawn and withdrawn again stops the server, with either Remove. |
| CertTables.AfterConcat | internal/ca/ca.go:213-263 | A run in two parts is the second from where the first leads; a stopped server stays stopped. |
| CertDirectory.RemovedMatchesIffMended | internal/ca/ca.go:245-256 | After a removal the directory is that of the tables if and only if the file is looked for under the name it was written to. |
| CertDirectory.MendedMatches | internal/ca/ca.go:213-263 | With the mended Remove the directory is that of the tables after any run. |
| CertDirectory.AliasNamesOwnFile | internal/ca/ca.go:213-238 | While the directory is that of the tables, a live name leads to the file that holds its own certificate. |
| CertDirectory.WrittenIsDirectory | internal/ca/ca.go:213-263 | As written, after any run the files of a hash are numbered without a gap and each holds the certificate last written to its number; they never become fewer and cover the whole bucket. |
| CertDirectory.WrittenMatchesIff | internal/ca/ca.go:213-263 | As written, the directory is that of the tables if and only if, in every bucket, each number was last written for the entry now there and there is no further number. |
| CertDirectory.FoundMatchesIff | internal/ca/ca.go:102-119 | A directory that is already there at the start is that of the new tables if and only if it holds no numbered file but the one the first certificate is written to. |
| CertDirectory.FoundFileStays | internal/ca/ca.go:102-119 | A file left under the next number is there for the probe as before. |
| CertDirectory.HoldReads | internal/ca/ca.go:427-434 | Where the files of a hash are numbered without a gap, reading them in order gives exactly these files. |
| FoundDirectory.MendedOver | internal/ca/ca.go:213-263 | With the mended Remove, over any run on whatever was in the directory: a number in use holds the certificate at its place, a number that was in use holds none, and from the greatest length of the bucket on there is what was there before. |
| FoundDirectory.WrittenOver | internal/ca/ca.go:213-263 | As written, over any run on whatever was in the directory: a number used holds the certificate last written to it, and from there on there is what was there before. |
| FoundDirectory.ReadsOver | internal/ca/ca.go:427-434 | In order such a directory reads as the certificates of the bucket, followed by what was left only if the bucket is at its greatest length and no number is missing. |
| Probing.CheckCertificate | internal/ca/ca.go:397-456 | On every directory the loop over the numbered files ends, with the verdict of the first file up to the first missing number that bears the name. |
| Probing.FirstDecides | internal/ca/ca.go:427-453 | The first certificate with the name decides, by its key. |
| Probing.ProbeIsSearchIffOneKey | internal/ca/ca.go:427-453 | The probe agrees with a search of the unordered set for every key if and only if the certificates of that name have one key. |
| Probing.ProbeFindsHeld | internal/ca/ca.go:408-456 | On a directory in step with the tables it is a search of the certificates held. |
| Probing.ProbeFindsWritten | internal/ca/ca.go:408-456 | As written, after any run it is a search of what was last written to each number. |
| Probing.WithdrawnAcceptedLiveLost | internal/ca/ca.go:245-263 | As written, after add a, add b, withdraw a, add c the tables hold b and c, but the directory holds a and c: the probe accepts a and does not find b. |
| CertRecord.RunAgrees | internal/ca/ca.go:213-263 | Over any run with fresh names added and registered ones withdrawn, and either Remove, nothing stops the server, every name on record is live and stands for its own certificate, and the buckets hold exactly what is on record. |
| CertRecord.DirectoryHoldsRecord | internal/ca/ca.go:213-263 | With the mended Remove the files of a hash then hold each certificate as often as it is on record, and each name leads to its own file. |
| CertRecord.ProbeFindsRecord | internal/ca/ca.go:427-453 | After any such run the probe accepts a key if and only if a certificate with that name and key is on record, even if hashes collide. |
| KeyIndex.MakesRecorded | internal/vpn/config.go:174-191 | Certificates made for keys that nobody has on record, each once, keep cache and buckets accounting for one another. |
| KeyIndex.WithdrawalsRecorded | internal/vpn/config.go:228-231 | Withdrawing accepted keys on record, each once, never stops the server and takes exactly their certificates, with either Remove. |
| KeyIndex.TurnInStep | internal/vpn/config.go:130-235 | One user's update that comes through, for a listing that respects the state, never stops the server; afterwards every accepted key on record has its live certificate, and the buckets hold one certificate for each of these and what was extra before. |
| KeyIndex.BrokenTurnInStep | internal/vpn/config.go:174-191 | An update broken off keeps that too, except that the certificates it has made are extra from then on. |
| KeyRuns.RunInStep | internal/vpn/config.go:130-239 | Over any run of such updates, carried through or broken off, in any order of users and with either Remove: the buckets hold exactly one certificate for each accepted key on record, what was extra at the start, and what the broken updates left. |
| KeyRuns.NextDoesNotStop | internal/vpn/config.go:228-231 | After any such run the next listing that respects the state does not stop the server. |
| KeyRuns.StartInStep | internal/ca/ca.go:105-121 | At the start, on whatever was in the directory, cache and index are in step, with the authority's own certificate under no name; the files are those found but for the first one, and are those of the index if and only if the directory was clean. |
| KeyRuns.AcceptsKeysOnRecord | internal/ca/ca.go:397-456 | In a state in step, where the bucket is read and then some files left from before, a user's certificate is accepted if and only if it is the user's own issue, its key has the hash it names, and that hash is on record as accepted, belongs to an extra certificate of that user, or to one of those files. |
| KeyRuns.MendedRunAccepts | internal/ca/ca.go:397-456 | With the mended Remove, after any run from the start, on whatever was in the directory: accepted if and only if it is the user's own issue, its key has the hash it names, and that hash is on record as accepted, or was made in a turn broken off, or is that of a file from before that the bucket, at its greatest length, has not reached and that follows without a gap. |
| KeyRuns.WrittenRunAccepts | internal/ca/ca.go:397-456 | As written, after any run from the start, on whatever was in the directory: accepted if and only if it is the user's own issue, its key has the hash it names, and its certificate is the one last written to some number of its bucket or in a file from before that follows without a gap. |
| KeyService.Refresh | internal/vpn/config.go:130-235 | It fails exactly if a new key cannot be fetched; its calls are those of the listing; it stops the server exactly where they do, which a listing that respects a state in step never does; and otherwise it is a turn of a run, complete unless it failed. |
| KeyService.KnownAfter | internal/vpn/config.go:130-239 | After turns of different users, a user's keys are those listed in the user's completed turn, else those at the start. |
| KeyService.ApartIsRun | internal/vpn/config.go:130-239 | Turns of different users in any order are a run as long as none stops the server; from a state in step none does if the listings respect it and each other. |
| KeyService.RefreshAll | internal/vpn/config.go:130-239 | updateKeys is such a run, with one turn for each member with listed keys and the failing one broken off; from a state in step and with compatible listings it does not stop the server and ends in step. |
| KeyWitnesses.RelistedKeyStops | internal/vpn/config.go:228-231 | From any state without the user and with either Remove: a key is accepted, delisted, listed again when too weak, and delisted again; the last listing stops the server. |
| KeyWitnesses.SharedKeyStops | internal/vpn/config.go:228-231 | Two users list a key under one id and delist it one after the other: the first takes the other's certificate, whose key is still on record, and the second stops the server. |
| KeyWitnesses.RejectedKeyStops | internal/vpn/config.go:228-231 | A key that was rejected and goes again stops the server, unless its id is registered for another. |
| KeyWitnesses.LeftoverStaysAccepted | internal/vpn/config.go:174-191 | An update breaks off after making a certificate, the next one comes through and then the key is delisted: even with the mended Remove it is accepted afterwards. |
| Management.PairedIffOnlyExpectedAnswered | internal/vpn/openvpn.go:145-224 | In every interleaving each caller gets the response to its own command, if and only if OpenVPN answers no command sent without a wish for a response. |
| Management.GivenWhatWasSaid | internal/vpn/openvpn.go:190-224 | Where no silent command is answered, over every run: each caller is given, word for word, the line OpenVPN said in that run for its very command, or is told of a write of its command that failed or of a hang-up, which did occur in the run. |
| Management.SaidOnce | internal/vpn/openvpn.go:383-412 | In every run OpenVPN has at most one line for a command and a line is for one command only, so that no line is given to two callers. |
| Management.RunKeepsInvariant | internal/vpn/openvpn.go:190-224 | Over every run: callers wait exactly while the loop is busy with their command, and at most one reply is under way, the one the loop waits for. |
| Management.DueMoves | internal/vpn/openvpn.go:383-412 | Passing a line on changes neither the replies under way nor their order. |
| Management.WaitingIsServed | internal/vpn/openvpn.go:414-424 | A waiting caller's command is the one the loop works on; so at most one caller waits. |
| Management.NoStrayReply | internal/vpn/openvpn.go:383-412 | What is under way is nothing or just the reply the loop waits for. |
| Management.StrayReply | internal/vpn/openvpn.go:206-224 | A run in which the reply to a silent command is handed to the next caller. |
| Enforcement.Execute | internal/fw/firewall.go:99-248 | One call keeps the jumps where the record of the calls says, one per owned address, to its owner, and the chains where the requests recorded lead, whatever they take away. |
| Enforcement.Enforce | internal/fw/firewall.go:99-248 | Over any run of calls that connects addresses only for users with a chain, the jumps end where the record says and the chains where its requests lead; if it is mended or no rule is withdrawn, every chain grants the latest rules of its user. |
| Enforcement.PacketDecision | internal/fw/firewall.go:99-248 | After any such run a packet passes if and only if somebody owns, by the record, an address that covers its source and the owner's latest policy allows it. |
| Enforcement.PassesOnlyOnceAllowed | internal/fw/firewall.go:99-248 | After any run of such calls, even as written and whatever is withdrawn, a packet passes only if somebody owns, by the record, an address that covers its source and some policy once handed over for the owner allows it. |
| Enforcement.AddressIffMayHave | internal/vpn/manager.go:445-450 | Announcing an address keeps addresses and clients in step exactly if it is nobody else's and the client had no other. |
| Enforcement.NewSeatIffFree | internal/vpn/manager.go:397-400 | Replacing a client's record keeps them in step exactly if the old record had no address. |
| Enforcement.SeatLeft | internal/vpn/manager.go:451-469 | A hang-up takes back exactly the address of the client that leaves. |
| Enforcement.StaysInOrderIff | internal/vpn/manager.go:436-472 | A client event keeps the session tables in order and the firewall's addresses those of the clients, without ending the server, if and only if it is orderly; mended, only an announced address can fail to be. |
| Enforcement.RunInStepIff | internal/vpn/manager.go:307-319 | A run of events stays in step through its first k events if and only if each of them is expected where it comes; the policies handed over before remain the latest. |
| Enforcement.ServeAll | internal/vpn/manager.go:307-319 | The events are handled one by one up to exactly the first that is not expected in the state the ones before it lead to, and the manager is then in the state they lead to. |
| Enforcement.ConnectedClientsOnly | internal/vpn/manager.go:436-472 | Wherever the firewall has followed the calls, a packet passes if and only if a connected client has an address that covers its source and its user's latest policy allows it. |
| Enforcement.RunServer | internal/vpn/manager.go:133-142 | The policies are handed over once, then any events come in. Up to exactly the first event that is not expected the manager is in the state the events lead to, and, even as written, a packet passes if and only if a connected client has its source and the policy of that client's user lets it pass. |
| Enforcement.EndedInOrderIff | internal/vpn/manager.go:418-434 | Ending a connection from the server's side keeps the addresses in step exactly if it is mended or the connection had none: the record is gone before the hang-up. |
| Enforcement.ReauthLosesAddress | internal/vpn/manager.go:397-400 | As written, after CONNECT, ADDRESS, REAUTH, DISCONNECT of one client nobody is connected, and packets from the address pass by the user's policy. |
| Enforcement.EndedLosesAddress | internal/vpn/manager.go:418-434 | The same after CONNECT, ADDRESS and the end of the connection by the server. |
| Enforcement.AddressWithoutChain | internal/vpn/manager.go:445-450 | For a user whose policy has no route, CONNECT and ADDRESS leave the tables in order but ask for a jump to a chain that does not exist. |
| Operation.StepInStepIff | internal/vpn/manager.go:228-289 | An event, a configuration update or an end from the server's side leaves everything in step if and only if it is proper; the policies are then the latest ones. |
| Operation.ServedInStepIff | internal/vpn/manager.go:228-319 | A run of such steps stays in step throughout if and only if every step is proper where it comes. |
| Operation.Operate | internal/vpn/manager.go:133-319 | From the first hand-over of the policies through events, updates and ends in any order, up to exactly the first step that is not proper, as written and mended: a packet passes if and only if a connected client has its source and the latest policy of that client's user lets it pass. |
| Service.PolicyPermits | internal/vpn/manager.go:291-305 | The rules of a policy match a packet if and only if the merged table of the sections it describes allows it. |
| Service.PolicyHasRoutes | internal/vpn/manager.go:291-305 | A policy has routes if and only if the sections it describes grant a network. |
| Service.PassesByConfiguration | internal/vpn/config.go:71-128 | For every user, what passes by the policies answered is what the configuration lets the user do: nothing for a user without access or listed keys; and there is a chain for exactly the users to whom the configuration gives a route. |
| Service.RunConfigured | internal/vpn/manager.go:73-142 | From configuration, groups and key lists through buildUserConfigs, whose every answer is handed over once, and any run of events, even as written: the users with a chain are those to whom the configuration gives a route; and up to exactly the first event that is not expected, a packet passes if and only if a connected client has its source and the sections that apply to the client's user grant it. The start fails exactly where the backend does, and stops exactly where the calls to the certificate manager do. |
| Reconfiguration.TakeTurn | internal/vpn/manager.go:228-289 | An update asks the backend as buildUserConfigs does and hands exactly its answer on, unless withdrawing a key stops the server; an event or an end leaves the keys alone. |
| Reconfiguration.ForceMeans | internal/vpn/manager.go:228-289 | Over any turns, what the routes in force for a user pass is what the last configuration read that answered the user permits, or that of the start; as written that of the start. |
| Reconfiguration.LatestDecidesIff | internal/vpn/manager.go:237-272 | Right after an update that came through, with the guard mended, its configuration decides for everybody if and only if it gives access to everyone who was let through before. |
| Reconfiguration.DroppedUserStays | internal/vpn/manager.go:237-272 | With the guard mended, a user let through at the start and dropped by the next configuration is still let through after the update. |
| Reconfiguration.RunReconfigured | internal/vpn/manager.go:73-319 | From the start on, through events, ends and updates that read configuration, groups and keys anew, up to exactly the first turn that is not proper or stops the server: a packet passes if and only if a connected client has its source and the configuration in force for that client's user permits it. |

## Left out

- Firewall.Firewall.UpdateUser: iptables commands fail only for the reasons modelled in `Iptables`.
- Enforcement.RunServer: firewall calls take effect in their order, independently of the moment; policies handed over later are in `Operation.Operate`.
- Enforcement.StaysInOrderIff: events that are not orderly are shown to break the correspondence, not how far.
- KeyRuns.RunInStep: listings that do not respect their state may still come through; what the buckets hold then is stated only call by call (`CertTables.After`).
- KeyRuns.MendedRunAccepts: no user bears the name of the authority's own certificate, a hash belongs to one key, and files from before that bear a user's name were made for the user's keys.
- KeyRuns.WrittenRunAccepts: the same three.
- KeyHistory.LoginAfterHistory: for a hash that is not empty and ids that are not; an empty hash leads to a key that was rejected, as `HistoryLeads` says.
- CertIndex.CertificateManager.AddCertificate: writing the file always succeeds.
- Probing.CheckCertificate: every file in the directory is a readable certificate; the hash of a name is an arbitrary function.
- Keys.UserManager.BuildUserConfigs: the key strength is a parameter, and keeping the previous file by its tag is left out.
- Reconfiguration.RunReconfigured: the timer between updates, and an update for which the file itself cannot be had or read, which changes nothing (`Operation.Operate` has it).
- Service.RunConfigured: tunnel, DNS proxy and DNS registration between reading the configuration and handing the policies over.
- Sessions.StaysIffSameNetworks: for networks of one address family, as the comparison ignores the size of an address.
- Sessions.Manager.ProcessClientEvent: each event is one step; the gap between releasing the lock and sending a command is not modelled, nor is the text of a command, with the routes and the DNS server pushed to the client.
- Policy.Determined: networks print differently, which the sort by text needs.
- Digits.EncodeLength: lengths below 2^31, where the digit loop is faithful.
- Oid.OidRoundTrip: the product of the first two arcs is exact, while numbers beyond 2^53 are rounded in the browser.
- Der.RoundTrip: raw leaves must each hold one complete encoding, and the total length must be below 2^31.
- Management.PairedIffOnlyExpectedAnswered: time starts after the two commands sent before the loop; `Shutdown` with callers still waiting, and deadlock through the event channels, are left out.
- The ASN.1 node classes are one class with a kind; strings are octets, dates are text, and the meaning of integer content as a signed number is not claimed because no sign octet is added.
- ConfigPrinter.ReadsBackIff: for one section; the whole file is printed with its groups in the arbitrary order of a Go map, so that their order is not that of the file.
- Values of the global settings (watch, net, route53, key-strength) and the text forms of addresses: a parameter says which settings are acceptable.
- Amazon and local backends, files, sockets, process start, timers, signals, logging, metrics: no property of their own.
- Cryptography and the browser's key store: functions that return octets.
- DNS proxy and the pages of the web client: forwarding and user interface.
- The alphabet of 62 characters beyond its irreversibility: lossy by construction.
