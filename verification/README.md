# Verified models of Synchronet's codecs, redraw and input recognition

These Dafny modules model parts of Synchronet that transform data or keep state over long runs, and prove what
they are for.

**The LZH compressor** (`encode/lzh.c`) is modelled completely, in the form it has: arrays updated in place, loops,
bit buffers.

- `Words`, `BitChannel`: 16-bit words as bit strings; the packer and unpacker of bits.
- `HuffmanTree`, `HuffmanRebuild`, `AdaptiveHuffman`: the adaptive Huffman tree in `freq`, `son` and `prnt`; its
  sibling property, the update with exchanges, the periodic rebuild. Each method on the arrays computes a function on
  trees, and the properties are proved of that function.
- `HuffmanCode`, `LongCodes`, `Positions`: codes as paths in the tree, their length bound, a run of updates that leads
  to longer codes than the encoder can send, and the code of match positions.
- `RingBuffer`, `SearchTree`, `SearchLinks`, `Matcher`, `LzhWindow`: the text buffer with its mirrored tail, and the
  256 search trees in `lson`, `rson` and `dad`; the match search finds the longest match, and the
  nearest such on its way.
- `Lzss`, `LzhDecoder`, `LzhEncoder`, `LzhRoundTrip`: tokens, the two main functions, and the round trip.

The rest of the models:

- `Utf8`, `Utf8Text` (`encode/utf8.c`): the strict decoder and encoder, validity, and the two in-place rewriters.
- `Base64` (`encode/base64.c`): the codec with its wrapping accumulator.
- `RemoteScreen`, `PutText` (`odoors/ODBlock.c`): the redraw that sends only differences.
- `MouseEvents`, `MouseGestures`, `MouseThread` (`conio/mouse.c`): recognition of clicks, multiple clicks and drags.
- `AnsiTerminal`, `AnsiCursor` (`conio/ansi_cio.c`): cursor motion by short sequences, sent as bytes to a
  modelled terminal that parses them.

`Parameters`, `Options` and `Sequences` hold constants, a datatype and a lemma.

What the code does where its promise does not hold:

- A Huffman code of more than 16 bits does not fit the word in which `lzh_encode_char` collects it. The symbol
  survives if and only if the code has only zeros behind its sixteenth bit (`HuffmanCode.SurvivesIff`), and all
  symbols do if and only if no code is longer (`HuffmanCode.AllSurviveIff`); after 16549 updates with eight symbols,
  starting from the initial tree, some are (`LongCodes.LongCode`). The round trip is proved for all inputs on which
  the codes sent have at most 16 bits, which can be seen from the compressed text alone: exactly then the decoder
  reads no longer code in it (`LzhRoundTrip.SpelledShort`). It is proved without that condition for all inputs of at
  most 3867 bytes. On every input the decoder gets the text back up to the first longer code
  (`LzhRoundTrip.SpelledDecodes`).
- `utf8_putc` drops bit 31 of a value, so it is inverted exactly on values of 31 bits (`Utf8.EncodingScanned`).
- `utf8_normalize_str` is idempotent on valid text. On other bytes a second pass changes something if and only if a
  byte that is copied comes together, over deleted sequences, with bytes that complete a sequence
  (`Utf8Text.NormalizedTwiceIff`, `Utf8Text.BrokenTextNormalizedTwice`).
- `od_puttext` keeps the attribute in a signed character; attribute FF becomes -1, which `od_set_attrib` takes for no
  change. A cell that is sent comes out in the attribute in effect, which is its own unless that is FF
  (`PutText.DrawnExactly`). A block comes out as required if and only if each cell sent with attribute FF finds FF in
  effect, or is blank and finds background 7 in effect (`PutText.BlockRedrawn`, `PutText.WhiteOnWhite`).
- `b64_decode` tests only two of the bits left over before padding, and ignores what follows it. `Base64.DecodedMeans`
  says what any input is decoded to; it is the encoding of the result if and only if it is canonical
  (`Base64.ReencodedIff`, `Base64.NotCanonical`).

## Model

| member | source | states |
|---|---|---|
| BitChannel.BitWriter.PutCode | encode/lzh.c:355-368 | for a left-aligned code and at most 32 pending bits in all, the bytes put out and the bits pending spell the old ones followed by the top l bits of the code; what was certain to come out stays so, whatever the code; at most two bytes are added |
| BitChannel.BitWriter.EncodeEnd | encode/lzh.c:513-518 | every bit sent is a prefix of the bytes, padded by fewer than eight zero bits; all that was certain to come out has come out |
| BitChannel.Joined | encode/lzh.c:357 | or-ing the code in at bit putlen puts its bits right behind the pending ones |
| BitChannel.BitReader.GetBit | encode/lzh.c:317-333 | the next bit of the input in order, and zeros for ever past its end |
| BitChannel.BitReader.GetByte | encode/lzh.c:335-351 | the next eight bits as a byte, wherever they lie |
| BitChannel.BitReader.Fill | encode/lzh.c:321-328 | refilling keeps the invariant: the word holds the bits that come next, left-aligned, and more than eight of them |
| HuffmanTree.BumpValid | encode/lzh.c:447-471 | adding one to a node and carrying it to the root, with the exchanges, ends with the sibling property restored and the root one heavier |
| HuffmanTree.StepPending | encode/lzh.c:447-471 | one round of the do-while loop keeps the pending form of the property and moves to a strictly higher node, so the loop ends |
| HuffmanTree.BumpWeight | encode/lzh.c:447-469 | exactly the leaf updated gains one; every other symbol keeps its weight through all exchanges |
| HuffmanTree.ParentAbove | encode/lzh.c:471 | a parent has a larger index than its children, and only the root has parent 0, so the loop test is right |
| HuffmanTree.LeavesWeighRoot | encode/lzh.c:373-391 | conservation: the weights of all symbols add up to the weight of the root |
| AdaptiveHuffman.StartValid | encode/lzh.c:373-391 | the initial tree has the sibling property and weighs N_CHAR |
| AdaptiveHuffman.HuffmanArrays.StartHuff | encode/lzh.c:373-391 | the two loops fill the arrays with exactly that tree |
| AdaptiveHuffman.UpdateValid | encode/lzh.c:440-472 | an update, with or without a rebuild, keeps the sibling property: weights sorted and at least 1, inner nodes the sum of two adjacent sons with an even index, son and prnt inverse, each symbol one leaf, sentinel and prnt of the root intact |
| AdaptiveHuffman.UpdateWeight | encode/lzh.c:440-472 | after an update every symbol weighs what it did, halved and rounded up if the root had reached MAX_FREQ, and the one coded one more |
| AdaptiveHuffman.Run | encode/lzh.c:440-472 | the sibling property after any sequence of updates from any valid tree |
| AdaptiveHuffman.FreshValid | encode/lzh.c:444-446 | before the increment the root is below MAX_FREQ; a rebuild leaves it at no more than 16541 |
| AdaptiveHuffman.FirstWeights | encode/lzh.c:440-472 | up to 32454 updates from the initial tree, each symbol weighs one more than it has been coded |
| AdaptiveHuffman.FirstRebuild | encode/lzh.c:444-446 | the update after that halves all weights, rounding up |
| AdaptiveHuffman.HuffmanArrays.Update | encode/lzh.c:440-472 | the method on the arrays computes the functional update of the whole tree, including the signed 16-bit counter at the root |
| AdaptiveHuffman.HuffmanArrays.Raise | encode/lzh.c:448-469 | one round on the arrays: the node is exchanged with the last one of the same weight |
| AdaptiveHuffman.HuffmanArrays.ScanUp | encode/lzh.c:451-454 | the scan stops at the last node not heavier than before, inside the table even when the counter has become negative |
| AdaptiveHuffman.HuffmanArrays.Exchange | encode/lzh.c:455-468 | weights, sons and the parents of the sons change places, nothing else |
| HuffmanRebuild.RebuildValid | encode/lzh.c:396-436 | from any valid tree a rebuild gives a valid tree with the leaves in the same order, and at most half the root weight plus half of N_CHAR |
| HuffmanRebuild.RebuildWeight | encode/lzh.c:401-408 | each symbol ends with half its weight, rounded up |
| HuffmanRebuild.SlotAbovePair | encode/lzh.c:413-415 | the place found for a joined pair is always above the pair |
| HuffmanRebuild.GrowGrowing | encode/lzh.c:410-427 | joining pairs keeps the collection sorted, with every inner node the sum of an adjacent pair below it, until one tree is left |
| HuffmanRebuild.GrowSymbols | encode/lzh.c:410-427 | no insertion changes the order of the leaves |
| HuffmanRebuild.ConnectLinked | encode/lzh.c:428-435 | the last loop gives every node its parent: son and prnt are inverse |
| AdaptiveHuffman.HuffmanArrays.Reconst | encode/lzh.c:396-436 | the three loops, with memmove in place, compute the functional rebuild |
| AdaptiveHuffman.HuffmanArrays.JoinOne | encode/lzh.c:410-427 | one pair is joined in place |
| AdaptiveHuffman.HuffmanArrays.FindSlot | encode/lzh.c:413-414 | the downward scan finds the insertion point and stays inside the table |
| AdaptiveHuffman.ParentsUnique | encode/lzh.c:428-435 | the son array determines the parents |
| HuffmanCode.CodeDecodes | encode/lzh.c:474-538 | the bits of a symbol's path, at any position of any input, lead the decoder to that symbol and are consumed exactly |
| HuffmanCode.DecodeReads | encode/lzh.c:520-538 | conversely, whatever symbol is decoded, its code is what has been read |
| HuffmanCode.CodesPrefixFree | encode/lzh.c:479-538 | no code is the beginning of another |
| HuffmanCode.HeightBound | encode/lzh.c:440-472 | a node h levels above another weighs at least Fib(h + 2) |
| HuffmanCode.CodeLength | encode/lzh.c:474-499 | no code exceeds 21 bits, and none 16 while the root weighs less than 4181 |
| HuffmanCode.SurvivesIff | encode/lzh.c:476-495 | what the 16-bit word keeps of a code is decoded to the symbol if and only if the code has only zeros behind its sixteenth bit |
| HuffmanCode.LongCodeRead | encode/lzh.c:476-538 | where the first 16 bits of a longer code stand, the decoder reads a code of more than 16 bits |
| HuffmanCode.AllSurviveIff | encode/lzh.c:476-495 | every symbol of a tree, as sent, is decoded to itself wherever it is read, if and only if no code of the tree is longer than 16 bits |
| LongCodes.LongCode | encode/lzh.c:440-472 | coding eight symbols often enough, from the initial tree, leads to a tree in which some code has 17 bits or more and some symbol is lost |
| LongCodes.SpineLeaf | encode/lzh.c:440-472 | the sibling property fixes the shape: in any valid tree with these weights, each heavy symbol is a son of the node that carries all lighter ones |
| LongCodes.Deep | encode/lzh.c:440-472 | below a node that weighs more than half of 2 to the n-th and has only leaves of weight 1 some symbol lies n levels deeper |
| HuffmanCode.EncodeChar | encode/lzh.c:474-499 | sends the code of the symbol, or of a longer one at least the first 16 bits, and leaves the updated tree |
| HuffmanCode.GatherCode | encode/lzh.c:479-494 | the climb gathers the path, left-aligned, and its length |
| HuffmanCode.DecodeChar | encode/lzh.c:520-538 | finds the symbol whose code comes next and leaves the same updated tree as the encoder |
| Positions.PositionDecodes | encode/lzh.c:501-555 | a position sent at any bit offset is read back and consumed exactly |
| Positions.PrefixFree | encode/lzh.c:223-314 | a byte that begins with the code of an upper part is mapped to it by the decoder table |
| Positions.CodesOrdered | encode/lzh.c:223-243 | the codes of the 64 upper parts begin at 0 and lie side by side: each is the one before plus the number of bytes that begin with that, up to the last byte, and none is shorter than the one before |
| Positions.CodeCounts | encode/lzh.c:223-232 | there are 1, 3, 8, 12, 24 and 16 codes of 3 to 8 bits |
| Positions.BytesOrdered | encode/lzh.c:246-314 | the decoder tables map a byte to u if and only if it lies from the code of u up to the next, and to the length of that code |
| Positions.PositionBitsAre | encode/lzh.c:501-511 | as a number, the bits sent are the significant bits of the code of the upper part followed by the lower six |
| Positions.EncodePosition | encode/lzh.c:501-511 | appends the bits of the position |
| Positions.DecodePosition | encode/lzh.c:540-555 | decodes a position at any bit offset |
| SearchTree.InsertOrdered | encode/lzh.c:127-183 | inserting keeps a search tree ordered by 60-byte keys without duplicates; a position with the same key gives way and no other |
| SearchTree.RemoveOrdered | encode/lzh.c:185-216 | removing keeps the order and takes out exactly the position |
| SearchTree.RemoveInserted | encode/lzh.c:127-216 | deleting a position that has just been inserted, without a duplicate, gives the tree back |
| SearchTree.InsertPlace | encode/lzh.c:139-182 | a new position is a leaf, or takes the place of the one with the same key and its subtrees; all else stays where it is |
| SearchTree.JoinedIs | encode/lzh.c:191-208 | a removed node gives way to its other subtree if one is empty, or else to the node of its left subtree with the largest key, whose own left subtree moves up |
| SearchTree.VisitedInserted | encode/lzh.c:133-174 | the search for a position that has been inserted comes by the same positions as the search that inserted it |
| Matcher.TextWindow.InitTree | encode/lzh.c:113-121 | 256 empty trees, nothing registered |
| Matcher.TextWindow.DeleteNode | encode/lzh.c:185-216 | on the link arrays: the 256 trees stay well linked, ordered and disjoint, the position is out, all else is in |
| Matcher.TextWindow.JoinSubtrees | encode/lzh.c:191-208 | the surgery of the deletion: the two subtrees become one below the largest node of the left one |
| Matcher.TextWindow.InsertNode | encode/lzh.c:127-183 | on the link arrays: the position is registered by search tree insertion, and the match kept is the longest common prefix with any position of its tree, and the nearest among those visited that have as much |
| Matcher.TextWindow.Search | encode/lzh.c:133-174 | the descent ends at the open place or the duplicate that the order prescribes; the match is with a visited position, none of the tree has more in common, and none visited that has as much is nearer |
| Matcher.TextWindow.Keep | encode/lzh.c:159-172 | one more position visited: the match stays the longest, and the nearest of the longest, of those visited |
| Matcher.TextWindow.Compare | encode/lzh.c:156-158 | the length of the common part and the sign of the first difference |
| Matcher.TextWindow.Displace | encode/lzh.c:175-182 | a duplicate is replaced in place |
| Matcher.LongestOfAll | encode/lzh.c:127-183 | no registered position of any of the 256 trees has more in common with the new one than the match found, which is 0 or 3 to 60 bytes long and points at a registered position |
| LzhWindow.KeyText | encode/lzh.c:646-651 | where a key runs over the end of the ring it reads the mirrored tail, which holds the right bytes |
| LzhWindow.MatchRepeats | encode/lzh.c:625-668 | a match found repeats the input, even overlapping itself |
| LzhWindow.ReadInKeeps | encode/lzh.c:646-656 | reading a byte over the position just deleted disturbs no key of any tree |
| LzhWindow.NoLongerRepeat | encode/lzh.c:127-183 | in terms of the input and the spaces registered before it: no earlier place in the window repeats more of what comes next |
| LzhWindow.EnterRemembers | encode/lzh.c:176-182 | every earlier byte of the window, and every space registered before it, keeps a representative with the same key, also when duplicates give way |
| LzhWindow.NearestEntered | encode/lzh.c:159-183 | in terms of the tree that holds the new position: of the positions above it that have as much in common as the match, none is nearer |
| LzhEncoder.PreloadedReach | encode/lzh.c:630-631 | when the first byte is to be coded, each of the 60 registered spaces is represented |
| LzhEncoder.OneMore | encode/lzh.c:630-631 | registering the spaces from the nearest on keeps, of equal keys, the farthest, and no other |
| LzhWindow.ReadStep | encode/lzh.c:646-656 | one round of the reading loop keeps the window, the trees and the longest match |
| LzhWindow.TailStep | encode/lzh.c:663-667 | one round of the loop that drains the look-ahead does too |
| Lzss.TokensDecode | encode/lzh.c:691-765 | the bits of any sequence of literals and matches are decoded to what they stand for, with both trees in step |
| Lzss.TokensBegin | encode/lzh.c:691-765 | as long as the bits of tokens stand in the input, the decoder puts out what they stand for, whatever comes behind them |
| Lzss.ShortIff | encode/lzh.c:520-538 | the decoder reads only codes of at most 16 bits if and only if only such codes have been sent |
| Lzss.TokensSize | encode/lzh.c:633-640 | on codes of at most 16 bits, tokens take at most 16 bits for each byte they stand for |
| Lzss.SymbolsInOrder | encode/lzh.c:633-640 | bytes are their own symbols, and match lengths 3 to 60 follow from 256 on |
| Lzss.MatchMeans | encode/lzh.c:748-763 | a match repeats, byte for byte, what stands its position plus one before, itself included |
| Lzss.BlankCopied | encode/lzh.c:729-732 | a match in front of the text stands for spaces |
| Lzss.FewTokensFit | encode/lzh.c:474-499 | while the root stays below 4181, every code fits |
| Lzss.CopyIs | encode/lzh.c:750-763 | a stretch that repeats what stands dist bytes before is what the copying loop makes |
| RingBuffer.RingRead | encode/lzh.c:750-763 | the decoder's ring gives the byte dist bytes back, for every byte of a match that may overlap itself |
| LzhDecoder.LzhDecode | encode/lzh.c:691-779 | the decoder computes the decoding function on every input with a non-negative length; it never reads outside the ring |
| LzhDecoder.CopyMatch | encode/lzh.c:748-763 | a match is copied byte by byte, cut off at the announced length |
| LzhDecoder.HeaderIs | encode/lzh.c:608 | the length header byte by byte, the lowest first |
| LzhEncoder.Choose | encode/lzh.c:625-640 | a literal or a match that repeats the input; no earlier repetition in the window is longer, the registered spaces included; and of the positions that the search came by with as much in common, the match is with the nearest |
| LzhEncoder.Shift | encode/lzh.c:641-668 | the window moves on over the token; the look-ahead stays full while there is input |
| LzhEncoder.Round | encode/lzh.c:624-668 | one round of the main loop keeps everything: tree, bits, window, trees, longest match, and moves on |
| LzhEncoder.LzhEncode | encode/lzh.c:561-687 | some tokens stand for the input, each as long as possible, and outbuf spells the length and them, up to the first code of more than 16 bits or all; if lzh_decode reads no longer code in outbuf then it gets the input back, and outbuf has at most 4 + 2 * inlen bytes; for up to 3867 bytes it reads none |
| LzhRoundTrip.SpelledDecodes | encode/lzh.c:561-779 | decoding what spells the tokens of a text gives back the text up to the first code of more than 16 bits, and exactly the text if there is none |
| LzhRoundTrip.SpelledShort | encode/lzh.c:561-779 | whether all codes sent had at most 16 bits can be seen from the compressed text alone |
| LzhRoundTrip.SpelledSize | encode/lzh.c:633-669 | the compressed text has at most 4 + 2 * inlen bytes on codes of at most 16 bits |
| LzhRoundTrip.ShortTextFits | encode/lzh.c:474-499 | a text of at most 3867 bytes never needs a longer code |
| Utf8.GetC | encode/utf8.c:278-366 | length and value, or the error code, as the table of section 2 of RFC 2279 prescribes |
| Utf8.ScannedCodes | encode/utf8.c:278-366 | which error code stands for which fault, in numbers |
| Utf8.LeadRange | encode/utf8.c:278-366 | first bytes of the six lengths lie in six ranges, and no other byte of a sequence does |
| Utf8.EncodingExamples | encode/utf8.c:376-440 | the example of section 4 of RFC 2279 |
| Utf8.PutC | encode/utf8.c:376-440 | writes exactly the encoding, or nothing when the buffer is too small; without a buffer only the length |
| Utf8.EncodingScanned | encode/utf8.c:278-440 | what is written is read back, whatever follows, if and only if the value has at most 31 bits; what becomes of larger values |
| Utf8.ScannedEncoding | encode/utf8.c:278-366 | whatever is accepted is the encoding of its value: only minimal forms are |
| Utf8Text.StrIsValid | encode/utf8.c:182-192 | true if and only if the string is the encoding of some code points |
| Utf8Text.TextUnique | encode/utf8.c:182-192 | a valid string encodes one sequence of code points only |
| Utf8Text.NormalizeStr | encode/utf8.c:41-140 | the in-place loop writes the bytewise normal form, never longer, on every string |
| Utf8Text.NormalizeAt | encode/utf8.c:45-137 | one round of it |
| Utf8Text.TextNormalized | encode/utf8.c:41-140 | on text the byte loop is decoding, replacing each code point, and encoding again |
| Utf8Text.NormalizedTwice | encode/utf8.c:41-140 | the result is text again, and normalising twice changes nothing more |
| Utf8Text.NormalizedTwiceIff | encode/utf8.c:41-140 | on any bytes, normalising twice is the same as once if and only if no sequence comes together over deleted ones |
| Utf8Text.BrokenTextNormalizedTwice | encode/utf8.c:41-140 | an input for which a second pass does change something |
| Utf8Text.ReplaceChars | encode/utf8.c:144-180 | the in-place loop computes the replacement, on every string |
| Utf8Text.TextReplaced | encode/utf8.c:144-180 | on text each code point of more than seven bits is substituted by itself |
| Utf8Text.CodePointReplaced | encode/utf8.c:160-176 | a code point becomes what the look-up gives; else the character for those of no width, or that for all others, or nothing |
| Utf8Text.BrokenReplaced | encode/utf8.c:154-159 | a byte that begins no sequence becomes the error character, or nothing |
| Utf8Text.ReplacedStrips | encode/utf8.c:143 | with nothing to put in their place, exactly the bytes of more than seven bits vanish, whatever they are |
| Utf8Text.ReplacedSevenBit | encode/utf8.c:142-143 | whatever the bytes are, only seven-bit characters and the given replacements are left |
| Base64.B64Encode | encode/base64.c:102-177 | writes the encoding of section 4 of RFC 4648, or returns -1 when it does not fit; also over its own source |
| Base64.LetterInTable | encode/base64.c:43-44 | value v is written as character v of the table of the program |
| Base64.FindInTable | encode/base64.c:66-74 | and a character is read as its place in that table, the terminating zero as place 65 |
| Base64.EncodedAt | encode/base64.c:102-177 | character i of an encoding is, in that table, a base 64 digit of the 24-bit number of its group, or an equals sign where no byte is behind it |
| Base64.EncodeRound | encode/base64.c:126-160 | one group of up to three bytes, with its padding |
| Base64.B64Decode | encode/base64.c:46-88 | writes what the input decodes to, or returns -1; also over its own source |
| Base64.DecodedMeans | encode/base64.c:61-82 | on any input, zero bytes and white space included, the loop over a wrapping accumulator computes the meaning of the characters in groups, accepting exactly what the two-bit padding test accepts |
| Base64.SpacesIgnored | encode/base64.c:62-63 | white space never matters |
| Base64.SpacesAre | encode/base64.c:62 | what counts as white space |
| Base64.PadEnds | encode/base64.c:68-72 | nothing that follows an equals sign makes a difference |
| Base64.RoundTrip | encode/base64.c:46-177 | any encoding, broken by white space anywhere, decodes to the source |
| Base64.ReencodedIff | encode/base64.c:46-177 | an input that is accepted is the encoding of the result if and only if it consists of whole groups, padded only at the end, with all unused bits zero |
| Base64.NotCanonical | encode/base64.c:68-82 | an input that is accepted but is not: four unused bits are not all tested |
| PutText.BlockRedrawn | odoors/ODBlock.c:165-286 | if the terminal looks like the saved block, or with a full put from any state, then a cell that is sent comes out as its character in the attribute in effect and the others stay; the block looks as required if and only if each cell sent with attribute FF finds the right colours in effect, which holds when there is no such cell; nothing outside is touched |
| PutText.RowRuns | odoors/ODBlock.c:177-282 | of a row, every cell sent comes out in the attribute in effect, and every other cell looks as required and stays |
| PutText.DrawnExactly | odoors/ODBlock.c:271-282 | from any state, a cell that is sent comes out in the attribute in effect, the last one other than FF that was asked for; so it is as requested if and only if that is its own, as it is for every attribute but FF |
| PutText.WhiteOnWhite | odoors/ODBlock.c:271-282 | a block for which it does not: attribute FF is taken for -1, no change |
| PutText.RowCost | odoors/ODBlock.c:177-282 | a row costs at most one cursor command and its length |
| PutText.ChangesCost | odoors/ODBlock.c:246-268 | without a full put a row costs at most a cursor command and a character for each column that looks otherwise than required |
| PutText.DrawnIff | odoors/ODBlock.c:177-282 | just those columns are sent, and those in gaps between two of them that are no wider than a cursor command is long |
| PutText.RowSparing | odoors/ODBlock.c:94 | the same in numbers: a cursor command counts 4 characters with AVATAR and 7 without |
| PutText.BlockAsks | odoors/ODBlock.c:273-279 | no attribute is asked for that has been asked for last |
| PutText.RowUnchanged | odoors/ODBlock.c:177-215 | nothing is sent for a row if and only if it looks as required |
| PutText.MirrorKept | odoors/ODBlock.c:80-304 | the terminal goes on mirroring the local screen if and only if the cells sent with attribute FF find the right colours in effect; cursor and attribute are restored |
| PutText.RedrawCost | odoors/ODBlock.c:165-286 | the redraw by differences never costs more than the full redraw of the same block |
| PutText.Display.PutText | odoors/ODBlock.c:80-304 | parameter and capability errors; otherwise the local block is replaced and exactly the redraw is sent |
| PutText.AcceptedIff | odoors/ODBlock.c:106-119 | a block is accepted if and only if it has cells and all of them are on the screen |
| RemoteScreen.LookSameIff | odoors/ODBlock.c:189-205 | two cells look the same if they are equal, or if both are blank on the same background |
| PutText.Display.RedrawRow | odoors/ODBlock.c:177-282 | the loop over the columns sends the specified operations |
| PutText.Display.FindChange | odoors/ODBlock.c:181-206 | the comparison loop stops at the first column that must be redrawn |
| MouseEvents.RunKeeps | conio/mouse.c:209-441 | over every run: a pressed or dragged state has its button down, a clicked one up and its timeout armed, drag events come as start, moves, end; and with presses and releases alternating, each is accounted for by exactly one event or still pending |
| MouseGestures.TapsRecognised | conio/mouse.c:339-421 | over every run from rest: n presses and releases of a button in turn, with no timeout of it and no move in between, while a click of it is asked for and whatever the other buttons do, put out a quadruple click for every four, at the place of its first press, and nothing else |
| MouseGestures.ClicksJoined | conio/mouse.c:233-274 | and the timeout then puts out exactly one event, the click of the n mod 4 that are left, at the place of its first press |
| MouseGestures.MovesRecognised | conio/mouse.c:284-338 | after such presses and releases, the first move puts out the pending click; with the button down it starts a drag from where it was pressed, and each move adds one drag move |
| MouseGestures.Dragged | conio/mouse.c:284-421 | and the release ends it: click, start, moves and end are all that is put out |
| MouseGestures.PressHeld | conio/mouse.c:233-274 | a button still down at its timeout puts out the clicks before, and then a press |
| MouseGestures.PressUnasked | conio/mouse.c:343-392 | with no click asked for, presses and releases come out at once |
| MouseGestures.HeldDragged | conio/mouse.c:291-298 | a press that is out already is dragged without a click |
| MouseGestures.WaitsForMore | conio/mouse.c:393-411 | after a release another press is only waited for while a longer click is asked for |
| MouseGestures.PressWaits | conio/mouse.c:343-383 | a press is only timed when there is a time for presses |
| MouseEvents.CodesInOrder | conio/ciolib.h:573-616 | the event numbers |
| MouseEvents.BitsAre | conio/mouse.c:340-386 | bit by bit, the button masks |
| MouseEvents.StepKeeps | conio/mouse.c:233-422 | one event or timeout keeps all that |
| MouseEvents.TimeOutKeeps | conio/mouse.c:233-274 | a timeout turns what is pending into events of the same count |
| MouseEvents.MoveKeeps | conio/mouse.c:284-338 | a move starts or continues a drag, or settles a click |
| MouseEvents.PressKeeps | conio/mouse.c:339-383 | a press adds one |
| MouseEvents.ReleaseKeeps | conio/mouse.c:384-421 | a release adds one |
| MouseThread.Thread.Round | conio/mouse.c:209-441 | a round of the thread makes the step, puts out the events asked for, and selects the next timeout |
| MouseThread.Thread.SelectTimeout | conio/mouse.c:429-438 | the button whose timeout comes first among those that wait, the lowest among equals |
| MouseThread.Thread.AddOutEvent | conio/mouse.c:162-184 | an event goes out if it is asked for |
| MouseThread.AllAsked | conio/mouse.c:162-168 | nothing is lost when all events are asked for |
| AnsiCursor.RunTracked | conio/ansi_cio.c:203-350 | over any run of moves and characters, the terminal's cursor is the tracked one unless the next movement is forced; whether the terminal wraps at once or late |
| AnsiCursor.GotoTracked | conio/ansi_cio.c:239-350 | a move in range leaves the cursor there and changes no cell that can be seen; one out of range does nothing |
| AnsiCursor.MoveShort | conio/ansi_cio.c:239-350 | on a row or in a column a move is no longer than the relative sequence, than the line feeds down, or than spaces where those will do; a return to the first column of the row is one character; and on screens of up to 100 rows and 1000 columns no move is longer than the absolute position |
| AnsiCursor.SpacesIff | conio/ansi_cio.c:311-326 | spaces will do exactly where the stretch looks like spaces in the current attribute |
| AnsiCursor.SpacesOver | conio/ansi_cio.c:311-331 | spaces sent instead of a cursor command change nothing that can be seen |
| AnsiCursor.SentCharTracked | conio/ansi_cio.c:203-229 | a character moves the tracked cursor as it moves the terminal's, or forces the next movement |
| AnsiCursor.ForcedIff | conio/ansi_cio.c:203-229 | a character forces the next movement if and only if it is sent in the last column, or is a control character outside doorway mode |
| AnsiCursor.RunMirrors | conio/ansi_cio.c:501-516 | over any run of moves and of drawing characters that are shown, the terminal shows what has been drawn, the last cell excepted |
| AnsiCursor.DrawSparing | conio/ansi_cio.c:501-516 | nothing is sent for a cell if and only if it is on the screen already; an attribute is only sent when it changes |
| AnsiCursor.SessionTracked | conio/ansi_cio.c:203-350 | after each method of the console, the terminal that has been fed with what was sent has its cursor where it is tracked, and shows what has been drawn |
| AnsiCursor.Console.SendCh | conio/ansi_cio.c:203-229 | sends the bytes of the character and tracks the cursor |
| AnsiCursor.Console.GotoXY | conio/ansi_cio.c:239-350 | sends exactly the sequence chosen and tracks the cursor |
| AnsiCursor.Console.DrawCell | conio/ansi_cio.c:501-516 | draws a cell that is not on the screen already: move, attribute, character; the last cell is not sent |
| AnsiCursor.Console.SpacesAhead | conio/ansi_cio.c:311-326 | whether the cells passed are spaces on the current background |
| AnsiTerminal.FeedPosition | conio/ansi_cio.c:254 | the cursor position sequence as printed is parsed to the position: section 8.3.21 of ECMA-48 |
| AnsiTerminal.FeedDecimal | conio/ansi_cio.c:254 | a printed number is read back digit by digit |

## Left out

- LzhEncoder.LzhEncode: the round trip has the condition that no code sent has more than 16 bits, because longer ones do not fit the encoder's word. `LongCodes.LongCode` gives symbols whose coding leads to longer codes; a text that the encoder would cut into such symbols is not constructed.
- LzhDecoder.LzhDecode: inputs of fewer than four bytes and negative lengths in the header, for which the source reads or writes outside its buffers.
- BitChannel.BitWriter.PutCode: says nothing of more than 32 pending bits, where the shift count of the source would be negative.
- The struct `lzh_t` is split into the classes that use its fields; the fields `code` and `len`, which are never read, are missing.
- Input and output buffers of the compressor are sequences, the output one growing; the counters `incnt` and `outlen` are unbounded, and the caller's output buffer is taken to be large enough.
- The length header is a little-endian 32-bit integer, as on the usual platforms.
- The allocation paths of `LZH_DYNAMIC_BUF`; with them the table bounds at `encode/lzh.c` lines 453 and 471 would not mean the table length.
- LzhWindow.NoLongerRepeat: counts the spaces registered before the first byte until the first of them is out of reach, not during the steps in which they leave the window: they are registered from the nearest to the farthest, and of equal keys the farthest, which leaves first, is the one that stays.
- LzhEncoder.Choose: its claim to the longest repetition leaves the same steps out.
- Strings in `Utf8Text` are buffers of bytes ended by a zero; `utf8_str_total_width`, `utf8_str_count_width` and `cp437_to_utf8_str` are left out, and `unicode_width` and `lookup` are arbitrary functions.
- Base64.B64Encode: buffers that overlap without being the same.
- PutText.MirrorKept: the output window is the whole screen, and a character sent, also a control character, is drawn where the cursor is and moves it on in its row, in the last column as well, where a real terminal wraps and in the last cell scrolls; `od_set_attrib` is one operation, the cache of the current attribute included.
- PutText.Display.PutText: blocks are given as rows of cells; allocation failures, and the other functions of `odoors/ODBlock.c`.
- MouseThread.Thread.Round: events and timeouts are inputs; queues, semaphores and the clock are left out, and what is put out is a sequence.
- MouseEvents.RunKeeps: presses and releases are accounted for only while they alternate; nothing is claimed of other runs.
- AnsiCursor.RunTracked: an escape character is only sent in doorway mode, as the caller sees to.
- AnsiCursor.RunMirrors: control characters drawn outside doorway mode, which may do anything on the terminal; clearing and scrolling in `ansi_puttext`, and all input; the sequence that changes the attribute is one operation.
- `encode/yenc.c` and `encode/uucode.c`, whose loops do not make a clean round trip; `conio/cterm.c`, the device drivers and the configuration code, which would add plumbing only.
