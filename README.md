# python-random-code, modelled in Dafny

This project models, in Dafny, the small self-contained programs of the
python-random-code repository, and proves what each one computes:

- the text codec of `dataCompression.py`: run-length coding, and Huffman
  coding over the `TreeNode` record of `treeNode.py`;
- the two table-driven substitution codecs (`pigCypher.py`,
  `morseCodeTranslator.py`);
- the integer and sequence algorithms (`primeNumbers.py`,
  `stockChallenge.py`, `reverseWords.py`, `wordFrequency.py`);
- the strength check and the character pool of `passwordGenerator.py`;
- the small record and state programs: the to-do list (`ToDoList.py`), the
  two text adventures (`adventureGame.py`, `AdventureGame.py`), the
  blockchain bookkeeping (`blockChain.py`) and the contact book
  (`contactBook.py`);
- the byte rewrite of `corruptFile.py`;
- `factorial`, the `profile` wrapper's result and the duplicate check
  of `decorators.py`.

There is one Dafny module per source file, plus three shared ones:
`Wrappers` (`Option`, `Result` and the Python exceptions the programs
raise), `Strings` (the `str` methods used, on ASCII) and `Counting`
(`collections.Counter` as a table of keys in first-occurrence order).
Code that changes state step by step is modelled by methods and classes.
`rle_compress`, `huffman_tree`, the `ToDoList`, `Player`, `Room`, `Game`,
`Blockchain` and `ContactBook` classes and the `corrupt` loop are examples.
Each such method is proved against a function or predicate that says what
the result means. Pure code is modelled by functions and lemmas.

## Model

| member | source | states |
|---|---|---|
| Counting.Count | dataCompression.py:55 | `Counter(text)`: distinct keys in first-occurrence order, each mapped to its number of occurrences, and the counts sum to the length of the input |
| Counting.CountOfKey | dataCompression.py:55 | in a table with distinct keys, looking up a key gives the count stored with it |
| Counting.CountOfAbsent | dataCompression.py:55 | a character that is not a key has count 0 |
| Counting.Bump | dataCompression.py:55 | one more occurrence raises exactly that element's count by one, or appends it as a new key, and raises the total by one |
| Counting.CountEntries | dataCompression.py:55 | every entry of `Counter(s)` is an element of `s` paired with its multiplicity, and every element of `s` is a key |
| Counting.FirstOccurrencesElements | dataCompression.py:55 | the keys of the counter are exactly the elements of the input |
| Counting.FirstOccurrencesConstant | dataCompression.py:55 | a text of one repeated character has that character as its only key |
| RunLength.Decimal | dataCompression.py:16 | `str(count)`: a non-empty string of digits, a single digit exactly for counts below 10 |
| RunLength.ValueOfDecimal | dataCompression.py:16 | `int(str(k)) == k`: the numeral denotes the count |
| RunLength.RunLength | dataCompression.py:13-14 | the length of the leading run: at least 1, all copies of the first character, followed by a different one or the end |
| RunLength.RunsFlatten | dataCompression.py:8-18 | the runs that `rle_compress` reports spell the input again, in order |
| RunLength.RunsMaximal | dataCompression.py:13 | every reported run is non-empty and no two neighbouring runs have the same character |
| RunLength.RunsUnique | dataCompression.py:8-18 | any maximal list of runs that spells `s` is the list of runs of `s`: the runs are the maximal ones, and only those |
| RunLength.Compress | dataCompression.py:8-18 | `rle_compress(text)` is `str(k) + c` for each maximal run of k copies of c, in input order; `""` compresses to `""` |
| RunLength.Step | dataCompression.py:12-17 | one iteration either extends the pending run or writes it out and starts the next, keeping the loop invariant: written output plus the encoding of the rest is the encoding of the text |
| RunLength.CompressingEnd | dataCompression.py:18 | after the last index the written output is the whole encoding |
| RunLength.ExtendRun | dataCompression.py:13-14 | a repeated next character makes the pending run one longer and writes nothing |
| RunLength.CloseRun | dataCompression.py:15-17 | a change of character appends `str(count) + text[i]` and restarts the count at 1 |
| RunLength.Expand | dataCompression.py:21-29 | `rle_decompression` raises `IndexError` exactly when the last character is a digit 1-9, the one case in which `text[i+1]` is read past the end |
| RunLength.ExpandWithoutDigits | dataCompression.py:24 | non-digits add nothing by themselves: a text without digits decompresses to `""` |
| RunLength.Decompress | dataCompression.py:21-29 | the loop with its inner `while` returns exactly `Expand(text)`: each digit d adds d copies of the next character |
| RunLength.ExpandRender | dataCompression.py:8-29 | decompressing the rendering of runs of at most nine copies of non-digits gives back the text the runs spell |
| RunLength.RoundTrip | dataCompression.py:8-29 | `rle_decompression(rle_compress(s)) == s` when `s` has no digit and no run longer than 9 |
| RunLength.RunCharacterOccurs | dataCompression.py:8-18 | the character of each run occurs in the text, so a digit-free text has digit-free runs |
| RunLength.TwelveCopies | dataCompression.py:8-29 | twelve `'a'`s compress to `"12a"`, which decompresses to `"2aa"` |
| RunLength.TwelveCompressed | dataCompression.py:8-18 | twelve `'a'`s compress to `"12a"` |
| RunLength.TwelveExpanded | dataCompression.py:21-29 | `"12a"` decompresses to `"2aa"`: the `1` adds one copy of `2` and the `2` adds two `a`s |
| RunLength.DigitSymbol | dataCompression.py:8-29 | a digit symbol breaks the round trip: `"11"` compresses to `"21"`, whose decompression raises `IndexError` |
| RunLength.LeadingDigits | dataCompression.py:16 | the length of the numeral at the front of a string: digits up to it, a non-digit or the end after it |
| RunLength.ExpandCountsRender | dataCompression.py:16 | reading each numeral whole inverts the rendering of any runs of non-digits |
| RunLength.CorrectedRoundTrip | dataCompression.py:8-29 | with numerals read whole, the round trip holds for every digit-free text, whatever its run lengths |
| RunLength.TwelveCopiesCorrected | dataCompression.py:21-29 | with numerals read whole, `"12a"` expands to twelve `'a'`s |
| TreeNode.Letter | treeNode.py:4-8 | the `letter` attribute: set exactly on leaves, `None` on internal nodes |
| TreeNode.Left | treeNode.py:4-8 | the `left` attribute: the left child of an internal node, `None` on a leaf |
| TreeNode.Right | treeNode.py:4-8 | the `right` attribute: the right child of an internal node, `None` on a leaf |
| TreeNode.OrderOnCounts | treeNode.py:10-16 | `__lt__` is a strict order on counts; `__eq__` holds exactly when neither is less than the other; nothing equals `None` |
| TreeNode.EqualIgnoresShape | treeNode.py:13-16 | `__eq__` ignores letters and children: leaves with different letters, or a leaf and an internal node, of equal count are `==` |
| Huffman.WeightAppend | dataCompression.py:32-40 | the total count and the leaves of a heap split over concatenation |
| Huffman.RemoveAt | dataCompression.py:36-37 | taking one node out of the heap takes out its count and its leaves |
| Huffman.RemoveBetween | dataCompression.py:36-37 | a node taken from between two parts of the heap takes its count and its leaves with it |
| Huffman.MinExists | dataCompression.py:36 | a non-empty heap has a node of least count |
| Huffman.PopMin | dataCompression.py:36-37 | `heappop` removes one node of least count, whichever wins a tie: the heap is exactly the rest plus that node, and the rest keep its weight and leaves |
| Huffman.MergeWeight | dataCompression.py:36-39 | pushing the merge of the two popped nodes keeps the total count |
| Huffman.MergeForest | dataCompression.py:36-39 | pushing the merge keeps the multiset of leaves |
| Huffman.AllConsistentMerge | dataCompression.py:36-39 | the merged node weighs its two children together, so all nodes stay consistent |
| Huffman.MergedLightestOf | dataCompression.py:36-39 | popping a least node, then a least node of the rest, and pushing their merge is a greedy round |
| Huffman.MergeLightest | dataCompression.py:36-39 | one round: the heap shrinks by one and ends with an internal node whose left child is least in the heap, whose right child is least among the rest, and which replaces exactly those two; weight, leaves and consistency are kept |
| Huffman.BuildTree | dataCompression.py:32-40 | `huffman_tree(nodes)`: `IndexError` on `[]`; the heaps the loop passes through start at `nodes`, each follows from the one before by a greedy round of the two least nodes, and the last is the returned root alone; one node is returned unchanged; otherwise an internal root whose count is the sum of the input counts, whose leaves are the input's leaves and which is consistent |
| Huffman.BuildCodes | dataCompression.py:43-51 | `build_huffman_codes` stores into the passed (or fresh) dictionary each leaf letter's root-to-leaf path, `'0'` to the left and `'1'` to the right, a later leaf overwriting an earlier one |
| Huffman.CodeTableKeys | dataCompression.py:43-51 | the table has a code for exactly the letters at the leaves |
| Huffman.CodesExtendPrefix | dataCompression.py:49-50 | every code below a node extends the code of that node, strictly below an internal node |
| Huffman.CodesPrefixFree | dataCompression.py:43-51 | no letter's code is a prefix of another letter's code |
| Huffman.Compress | dataCompression.py:62-63 | `huffman_compress` succeeds exactly when every character of the text has a code, and raises `KeyError` otherwise |
| Huffman.FeedCrashed | dataCompression.py:66-78 | once the cursor has left the tree (`AttributeError`), reading more input changes nothing |
| Huffman.FeedAppend | dataCompression.py:69-77 | decoding `a + b` is decoding `a`, then `b` from where `a` left the cursor |
| Huffman.Decompress | dataCompression.py:66-78 | the cursor loop returns exactly `Decode(bits, root)`, including the `AttributeError` when a leaf root meets a bit |
| Huffman.DecodeOneCode | dataCompression.py:69-77 | from an internal node, the rest of a letter's code leads the cursor to its leaf, which emits the letter and resets to the root |
| Huffman.DecodeEncoded | dataCompression.py:62-77 | decoding the encoding of a text from the root emits that text and ends at the root |
| Huffman.RoundTrip | dataCompression.py:62-78 | with an internal root, `huffman_decompress(huffman_compress(text, codes), root) == text` |
| Huffman.PartialCode | dataCompression.py:69-77 | a proper prefix of the rest of a code leaves the cursor on an internal node and emits nothing |
| Huffman.TrailingPartialCodeDropped | dataCompression.py:66-78 | a trailing partial code is dropped without an error |
| Huffman.OtherCharactersIgnored | dataCompression.py:70-73 | characters other than `'0'` and `'1'` do not move the cursor |
| Huffman.LeavesOf | dataCompression.py:56 | one leaf per counter entry, with that entry's letter and count, in the counter's order |
| Huffman.LeavesForest | dataCompression.py:56 | the leaves' counts sum to the counter's total |
| Huffman.LeavesLetters | dataCompression.py:56 | the leaves carry exactly the counter's keys |
| Huffman.LeavesConsistent | dataCompression.py:56 | freshly made leaves are consistent trees |
| Huffman.TwoDistinctLeaves | dataCompression.py:55-56 | a text with two different characters gives at least two leaves |
| Huffman.AllSame | dataCompression.py:55-56 | a non-empty text without two different characters repeats its first character |
| Huffman.OneLetter | dataCompression.py:55-56 | such a text has one counter entry, its character with count `len(text)` |
| Huffman.SetupKeys | dataCompression.py:54-58 | the derived table has a code for exactly the characters of the text |
| Huffman.SetupTree | dataCompression.py:54-57 | the tree built from the counter weighs `len(text)`, has one leaf per distinct character and is consistent |
| Huffman.SetupCodes | dataCompression.py:54-58 | the derived codes are prefix-free; with two distinct characters they are non-empty and decode the encoding of the text, and with one character its code is `""` |
| Huffman.Setup | dataCompression.py:54-59 | `huffman_setup` raises `IndexError` on `""`; otherwise the root weighs `len(text)`, the codes cover exactly its characters, are prefix-free, and round-trip when there are two distinct characters; a one-character alphabet gets the empty code, so the text compresses to `""` and does not decode back |
| Huffman.EmptyCodeEncodesNothing | dataCompression.py:62-63 | a text of one repeated character whose code is `""` compresses to `""` |
| Huffman.OneSymbolLost | dataCompression.py:54-78 | with a single distinct character the encoding is `""`, which decodes to `""`, so the text is not recovered |
| CypherTable.CodesShape | pigCypher.py:21-29 | the fixed table has 97 codewords, each of `length_of_code` (5) characters, pairwise distinct |
| CypherTable.RowFacts | pigCypher.py:21-29 | each row of the table literal is sized and distinct, and apart from every earlier row |
| PigCypher.AlphabetSize | pigCypher.py:17-20 | the alphabet (letters, digits, punctuation, space, newline) has 96 characters |
| PigCypher.IndexOf | pigCypher.py:81 | `list.index`: the first position holding the value, absent exactly when Python raises `ValueError` |
| PigCypher.IndexOfFirst | pigCypher.py:81 | a position with no equal entry before it is the one `index` finds |
| PigCypher.SliceBound | pigCypher.py:66 | Python's normalised slice bound lies within the list |
| PigCypher.Rotate | pigCypher.py:66 | `codes[key:] + codes[:key]` has the length and the multiset of elements of `codes` |
| PigCypher.ShiftedCodes | pigCypher.py:54-66 | `get_shifted_codes(key)` with `generate=False` is a rearrangement of the fixed table |
| PigCypher.RotateIndex | pigCypher.py:66 | for `-len <= key <= len`, entry `i` of the rotation is `codes[(i + key) % len]`; outside that range the list comes back unrotated |
| PigCypher.RotateDistinct | pigCypher.py:66 | a rotation of distinct codewords is distinct |
| PigCypher.Encipher | pigCypher.py:80-84 | a character outside the alphabet is copied through; an alphabet character becomes `codes[alphabet.index(ch)]`, or raises `IndexError` when `codes` is too short |
| PigCypher.Encrypt | pigCypher.py:77-85 | `cypher(message, codes)`: the only error it can raise is the `IndexError` of an alphabet character past the end of the codes |
| PigCypher.EncryptFails | pigCypher.py:77-85 | `cypher` raises exactly when some alphabet character of the message has no codeword |
| PigCypher.EncryptFront | pigCypher.py:79-84 | the secret of a message is the piece of its first character followed by the secret of the rest |
| PigCypher.Cypher | pigCypher.py:77-85 | the loop growing `secret` returns exactly `Encrypt(message, codes)` |
| PigCypher.EncryptCopiesThrough | pigCypher.py:83-84 | with no alphabet character in it, the message is its own secret |
| PigCypher.EncryptAppend | pigCypher.py:77-85 | the secret of `a + b` is the secret of `a` followed by that of `b` |
| PigCypher.EncryptLength | pigCypher.py:81-82 | with enough codewords of 5 characters, a message over the alphabet becomes exactly 5 characters per character |
| PigCypher.ChunkLength | pigCypher.py:90-91 | the chunk `secret[i:i + 5]` is non-empty and shorter only at the end |
| PigCypher.Decipher | pigCypher.py:91-93 | a chunk decodes exactly when it is a codeword whose first index is inside the alphabet; `ValueError` when it is no codeword, `IndexError` when its index is past the alphabet |
| PigCypher.Decrypt | pigCypher.py:88-94 | `de_cypher` yields one alphabet character per chunk, a number of characters equal to the number of chunks, or raises `ValueError`/`IndexError` |
| PigCypher.DeCypher | pigCypher.py:88-94 | the loop over chunks returns exactly `Decrypt(secret, codes)` |
| PigCypher.DecryptFails | pigCypher.py:90-93 | decoding fails exactly when some chunk is not a codeword of the alphabet part of the table |
| PigCypher.RoundTrip | pigCypher.py:77-94 | `de_cypher(cypher(m, codes), codes) == m` for a message over the alphabet and enough distinct 5-character codewords |
| PigCypher.SpareCodeword | pigCypher.py:92-93 | the codeword past the alphabet decodes as an index past its end, `IndexError` |
| PigCypher.ShiftedDecodable | pigCypher.py:54-66 | every rotation of the fixed table is a table the round trip holds for |
| PigCypher.ShiftedRoundTrip | pigCypher.py:97-107 | for every key, decrypting what `cypher` makes with the shifted codes gives the message back |
| PigCypher.ShiftedSpareCodeword | pigCypher.py:21-29 | in every rotation the 97th codeword exists and decodes past the alphabet, `IndexError` |
| MorseCode.Position | morseCodeTranslator.py:52 | the item with key `ch`, absent exactly when no key is `ch` (where `table[ch]` raises) |
| MorseCode.Encode | morseCodeTranslator.py:49-53 | `text_to_morse` raises `KeyError` exactly when some character is not a key of the table |
| MorseCode.TextToMorse | morseCodeTranslator.py:49-53 | the loop appending `table[letter] + " "` returns exactly `Encode(text)` |
| MorseCode.KeysFor | morseCodeTranslator.py:60-62 | the inner loop over `table.items()` adds only keys whose code is the token, and nothing for a token matching no code |
| MorseCode.ScanStep | morseCodeTranslator.py:60-62 | one item scanned: its key joins the text exactly when its code equals the token |
| MorseCode.TokenStep | morseCodeTranslator.py:59-60 | the scan of a token starts with the keys of all later tokens still pending |
| MorseCode.TokenDone | morseCodeTranslator.py:59-62 | after the scan of a token its keys precede those of the later tokens |
| MorseCode.MorseToText | morseCodeTranslator.py:56-63 | the nested loop returns exactly `Decode(morse)`: for each space-separated token, every key with that code, in table order |
| MorseCode.TableShape | morseCodeTranslator.py:4-46 | every code is non-empty and free of spaces, no key is a lower-case letter, and only C and K share a code |
| MorseCode.KeysForAppend | morseCodeTranslator.py:60-62 | scanning two parts of the table adds the keys of the first part, then those of the second |
| MorseCode.KeysForOnly | morseCodeTranslator.py:60-62 | a code that only one item has decodes to that item's key alone |
| MorseCode.KeysForPair | morseCodeTranslator.py:60-62 | a code shared by exactly two items decodes to both keys, in table order |
| MorseCode.EmptyToken | morseCodeTranslator.py:58-62 | the empty token left by the trailing space adds nothing |
| MorseCode.CAndK | morseCodeTranslator.py:7-15 | C and K are the 3rd and 11th items and share the code `-.-` |
| MorseCode.TableSharesCode | morseCodeTranslator.py:7-15 | only C and K have the code `-.-` |
| MorseCode.SharedCode | morseCodeTranslator.py:59-62 | the table is not injective: `morse_to_text("-.- ")` is `"CK"` |
| MorseCode.WithinOnly | morseCodeTranslator.py:60-62 | in the table, the code of any key other than C and K decodes to that key alone |
| MorseCode.DecodeFront | morseCodeTranslator.py:58-62 | decoding a code, a space and the rest gives the code's keys, then the decoding of the rest |
| MorseCode.KeyAlone | morseCodeTranslator.py:52-62 | the code of a key other than C and K has no space and decodes to that key |
| MorseCode.RoundTrip | morseCodeTranslator.py:49-63 | `morse_to_text(text_to_morse(t)) == t` for every text over the keys other than C and K |
| MorseCode.LowerCaseRejected | morseCodeTranslator.py:4-52 | a lower-case letter makes `text_to_morse` raise `KeyError` |
| MorseCode.HelloWorldKeys | morseCodeTranslator.py:67 | every character of `"HELLO WORLD"` is a key other than C and K |
| MorseCode.HelloWorld | morseCodeTranslator.py:66-71 | the program's own message comes back from its Morse form |
| PrimeNumbers.Isqrt | primeNumbers.py:18 | `math.isqrt(n)`: the `r` with `r*r <= n < (r+1)*(r+1)` |
| PrimeNumbers.Cofactor | primeNumbers.py:18-21 | a divisor `d` of `n` strictly between 1 and `n` has a cofactor that is a divisor of at least 2 |
| PrimeNumbers.TrialDivisionSuffices | primeNumbers.py:18-21 | no divisor in `2..isqrt(n)` means `n` has no divisor strictly between 1 and `n` |
| PrimeNumbers.SmallDivisorBelow | primeNumbers.py:18-20 | a divisor up to the square root lies below `n`, so finding it disproves primality |
| PrimeNumbers.IsPrime | primeNumbers.py:15-21 | `is_prime(n)` is true exactly when `n >= 2` and no number strictly between 1 and `n` divides it; false for `n < 2` |
| PrimeNumbers.PrimesIn | primeNumbers.py:12 | the comprehension over `range(lo, hi)` with `is_prime`: exactly the primes in the range, increasing |
| PrimeNumbers.PassesTrialIsPrime | primeNumbers.py:8 | the test inside `primes_under_n` accepts exactly the primes among the numbers from 2 |
| PrimeNumbers.TrialFilterPrimes | primeNumbers.py:8 | the comprehension of `primes_under_n` lists the same numbers as a prime filter |
| PrimeNumbers.PrimesUnderSpec | primeNumbers.py:7-8 | `primes_under_n(n)` is, increasing, exactly the primes `x` with `2 <= x <= n`: the bound is inclusive |
| PrimeNumbers.Take | primeNumbers.py:12 | `s[:n]` is a prefix of `s` of length `min(n, len(s))`, with Python's reading of a negative `n` |
| PrimeNumbers.PrefixKeepsSmaller | primeNumbers.py:12 | a prefix of an increasing list keeps every element up to its last one |
| PrimeNumbers.GetNPrimes | primeNumbers.py:11-12 | `get_n_primes(n)`: increasing primes, at most `n` of them, with no prime skipped below the last, all below `n*(n+1)`; for `n >= 0` there are `min(n, P)` of them and for `n < 0` (the slice `[:n]`) `max(0, P + n)`, where P counts the primes below `n*(n+1)`; when fewer than `n` come back, every prime below `n*(n+1)` is there |
| PrimeNumbers.GetOnePrime | primeNumbers.py:11-12 | `get_n_primes(1)` is `[]`, because `range(2, 2)` is empty |
| PrimeNumbers.SmallPrimes | primeNumbers.py:15-21 | 2, 3 and 5 are prime and 4 is not |
| PrimeNumbers.PrimesToSix | primeNumbers.py:12 | the primes in `range(2, 6)` are 2, 3 and 5 |
| PrimeNumbers.GetTwoPrimes | primeNumbers.py:11-12 | `get_n_primes(2)` is `[2, 3]` |
| StockChallenge.ProfitsAfter | stockChallenge.py:5-6 | the inner comprehension: exactly the gains of selling on a later day at a higher price than on day `x` |
| StockChallenge.Profits | stockChallenge.py:5-6 | the whole comprehension: exactly the gains `prices[y] - prices[x]` with `x < y` and `prices[y] > prices[x]` |
| StockChallenge.Max | stockChallenge.py:7 | `max` of a non-empty list is an element and bounds every element |
| StockChallenge.MaxProfitSpec | stockChallenge.py:4-7 | the result is at least 0, bounds the gain of every buy-then-sell pair, is 0 or the gain of such a pair, and is 0 exactly when the price never rises (so also for empty and one-day lists) |
| StockChallenge.RisingExample | stockChallenge.py:11 | `[7, 1, 5, 3, 6, 4]` gives 5 |
| StockChallenge.FallingExample | stockChallenge.py:13 | `[7, 6, 4, 3, 1]` gives 0 |
| Strings.DigitValue | dataCompression.py:25 | `int(c)` of a digit is below 10 |
| Strings.DigitChar | dataCompression.py:16 | the digit character of a value below 10 denotes that value |
| Strings.ToLower | adventureGame.py:86 | `lower()` on one character changes exactly A-Z, to the matching a-z |
| Strings.Lower | adventureGame.py:86 | `lower()` keeps the length and lowers every character |
| Strings.Reverse | reverseWords.py:9 | `s[::-1]` has the length of `s` and reads `s` from the end |
| Strings.Repeat | dataCompression.py:26-28 | `n` copies of one character |
| Strings.SplitOn | contactBook.py:49 | `split(",")` yields at least one part, none containing the separator |
| Strings.SplitOnWithoutSeparator | contactBook.py:49 | a string without the separator splits into itself alone |
| Strings.SplitOnPart | contactBook.py:49 | a separator-free part followed by the separator is the first part of the split |
| Strings.WordLength | reverseWords.py:7 | the leading word ends at the first whitespace character or at the end |
| Strings.Words | reverseWords.py:7 | `split()` yields non-empty words containing no whitespace |
| Strings.WordsOfSpaces | reverseWords.py:7 | a string of whitespace has no words |
| Strings.WordsAfterSpaces | reverseWords.py:7 | leading whitespace does not change the words |
| Strings.WordsOfJoin | reverseWords.py:7-10 | splitting words joined by single spaces gives those words back |
| Strings.StripLeftSpaces | contactBook.py:49 | `lstrip` removes exactly the leading whitespace |
| Strings.StripRightSpaces | contactBook.py:49 | `rstrip` removes exactly the trailing whitespace |
| Strings.StripPadded | contactBook.py:49 | `strip()` removes exactly the whitespace padding of a field that neither starts nor ends with whitespace |
| ReverseWords.ReverseTwice | reverseWords.py:9 | reversing a word twice gives it back |
| ReverseWords.ReverseWord | reverseWords.py:9 | a reversed word is still a non-empty word without whitespace |
| ReverseWords.ReverseEach | reverseWords.py:8-9 | each word replaced by its reverse, with word order and word count unchanged |
| ReverseWords.ReverseWords | reverseWords.py:6-10 | the loop reverses each word of `input.split()` in place and the result is them joined by single spaces; splitting the result gives exactly the reversed words, as many as in the input |
| ReverseWords.ReverseWordsTwice | reverseWords.py:6-10 | applying `reverse_words` twice gives the input's words back, joined by single spaces |
| ReverseWords.Backwards | reverseWords.py:9 | a string that matches `s` read from the end is its reverse |
| ReverseWords.ReversePair | reverseWords.py:7-10 | two words joined by a space come back each reversed, in place |
| ReverseWords.HelloWord | reverseWords.py:14 | `"Hello"` is a word whose reverse is `"olleH"` |
| ReverseWords.WorldWord | reverseWords.py:14 | `"World"` is a word whose reverse is `"dlroW"` |
| ReverseWords.CodingWord | reverseWords.py:15 | `"Coding"` is a word whose reverse is `"gnidoC"` |
| ReverseWords.ChallengeWord | reverseWords.py:15 | `"Challenge"` is a word whose reverse is `"egnellahC"` |
| ReverseWords.HelloWorld | reverseWords.py:14-18 | `"Hello World"` becomes `"olleH dlroW"` |
| ReverseWords.CodingChallenge | reverseWords.py:15 | `"Coding Challenge"` becomes `"gnidoC egnellahC"` |
| WordFrequency.NewlinesToSpaces | wordFrequency.py:9 | `replace('\n', ' ')` keeps the length and turns exactly the newlines into spaces |
| WordFrequency.DropPunctuation | wordFrequency.py:11 | the `translate` deleting `string.punctuation` leaves no punctuation and keeps every other character it meets |
| WordFrequency.DropPunctuationAppend | wordFrequency.py:11 | deleting punctuation works piecewise over concatenation, so order and multiplicity are kept |
| WordFrequency.DropPunctuationOne | wordFrequency.py:11 | one character is deleted exactly when it is punctuation, otherwise kept as it is |
| WordFrequency.DropNoPunctuation | wordFrequency.py:11 | a text without punctuation passes through unchanged |
| WordFrequency.LettersArePunctuationFree | wordFrequency.py:11 | no lower-case letter is a punctuation character |
| WordFrequency.Normalise | wordFrequency.py:9-11 | the text that is split has no newline, no punctuation and no upper-case letter |
| WordFrequency.NormaliseAppend | wordFrequency.py:9-11 | normalising works piecewise over concatenation |
| WordFrequency.NormaliseOne | wordFrequency.py:9-11 | one character normalises to nothing if it is punctuation, to a space if it is a newline, and to its lower case otherwise |
| WordFrequency.NormaliseClean | wordFrequency.py:9-11 | without punctuation, normalising only turns newlines into spaces and lowers letters, position by position |
| WordFrequency.PairsSwap | wordFrequency.py:18 | without empty keys the comprehension only swaps each `(word, count)` into `(count, word)` |
| WordFrequency.WithCountAppend | wordFrequency.py:21 | the entries of one count in a concatenation are those of each part, in order |
| WordFrequency.WithCountBelow | wordFrequency.py:21 | a descending list starting below count `c` has no entry of count `c` |
| WordFrequency.InsertMultiset | wordFrequency.py:21 | inserting an entry adds exactly that entry |
| WordFrequency.InsertDescending | wordFrequency.py:21 | inserting into a descending list keeps it descending |
| WordFrequency.InsertSum | wordFrequency.py:21 | inserting an entry adds its count to the total |
| WordFrequency.InsertWithCount | wordFrequency.py:21 | the inserted entry comes after every entry of the same count: order among equal counts is kept |
| WordFrequency.SortDescending | wordFrequency.py:21 | the stable `sorted(..., key=x[0], reverse=True)`: non-increasing by count, a permutation of the input, and entries of each count in their input order |
| WordFrequency.SumFirstAppend | wordFrequency.py:18-21 | the counts of a concatenation sum to those of its parts |
| WordFrequency.GetWordFrequency | wordFrequency.py:9-23 | the result is ordered by count, most frequent first, and the entries of each count are in the counter's first-occurrence order |
| WordFrequency.KeysNonEmpty | wordFrequency.py:12-18 | words from `split()` are never empty, so the `if word` filter drops nothing |
| WordFrequency.PairsCounted | wordFrequency.py:15-18 | each pair holds a word of the text with its number of occurrences |
| WordFrequency.PairsCover | wordFrequency.py:15-18 | every word of the text has a pair |
| WordFrequency.PairsOnce | wordFrequency.py:15-18 | no pair repeats, and the counts add up to the number of words |
| WordFrequency.Rearranged | wordFrequency.py:21 | sorting keeps what holds of every entry, and keeps the words distinct |
| WordFrequency.Frequencies | wordFrequency.py:9-23 | every distinct word appears exactly once, with its number of occurrences, no other entry appears, and the counts sum to the number of words |
| WordFrequency.PairsSum | wordFrequency.py:18 | the pairs' counts sum to the counter's total |
| PasswordGenerator.Rank | passwordGenerator.py:33-43 | each check has its position in the fixed order length, digit, upper case, lower case, special |
| PasswordGenerator.Failed | passwordGenerator.py:27-43 | the failed checks: a check is listed exactly when it fails, each once, in the fixed order |
| PasswordGenerator.ThenStep | passwordGenerator.py:33-43 | running the next check in order extends the failures found so far by that check, if it fails |
| PasswordGenerator.Messages | passwordGenerator.py:33-43 | one message per failed check, in the same order |
| PasswordGenerator.MessagesSnoc | passwordGenerator.py:33-43 | appending a failure appends its message |
| PasswordGenerator.EvaluateStrength | passwordGenerator.py:26-48 | with no failed check the strong message comes back; otherwise the weak header followed by the failed checks' messages joined by `"\n"` |
| PasswordGenerator.WeakIsNotStrong | passwordGenerator.py:45-48 | a weak verdict never equals the strong message |
| PasswordGenerator.StrongIff | passwordGenerator.py:27-46 | the strong message comes back exactly when the password has at least 8 characters, a digit, an A-Z letter, an a-z letter and a non-word character |
| PasswordGenerator.MessagesOnce | passwordGenerator.py:33-43 | no message appears twice |
| PasswordGenerator.MessageInjective | passwordGenerator.py:35-43 | the five messages are pairwise different |
| PasswordGenerator.UnderscoreNotSpecial | passwordGenerator.py:31 | a password of word characters only, `'_'` included, fails the special-character check |
| PasswordGenerator.OnlyUnderscore | passwordGenerator.py:27-43 | `"Passw0r_"` fails the special-character check and nothing else |
| PasswordGenerator.UppercaseMembers | passwordGenerator.py:14 | `string.ascii_uppercase` holds exactly A-Z |
| PasswordGenerator.LowercaseMembers | passwordGenerator.py:16 | `string.ascii_lowercase` holds exactly a-z |
| PasswordGenerator.DigitMembers | passwordGenerator.py:18 | `string.digits` holds exactly 0-9 |
| PasswordGenerator.PunctuationMembers | passwordGenerator.py:20 | `string.punctuation` holds exactly the ASCII punctuation characters |
| PasswordGenerator.PoolMembers | passwordGenerator.py:12-20 | a character is in the pool exactly when its class was selected; the pool's length is 26, 26, 10 and 32 for the selected classes |
| PasswordGenerator.GeneratePassword | passwordGenerator.py:10-21 | `length` characters (none for a negative length), each from the selected pool; `IndexError` exactly when characters must be drawn from an empty pool |
| PasswordGenerator.GenerateAndEvaluate | passwordGenerator.py:56-60 | the generated password with `evaluate_strength` of it: the strong message when no check fails, otherwise the weak header followed by the failed checks' messages joined by newlines; `IndexError` exactly when characters must be drawn from an empty pool |
| ToDoList.ListIndex | ToDoList.py:21-25 | Python's list index: valid exactly in `-n..n-1`, a negative index counting from the end; otherwise `IndexError` |
| ToDoList.Marked | ToDoList.py:21 | entry `k` gets `" DONE"` appended; the length and every other entry are unchanged |
| ToDoList.Removed | ToDoList.py:25 | entry `k` is deleted: earlier entries stay, later ones move down by one, the length drops by one |
| ToDoList.MarkTwice | ToDoList.py:21 | marking twice appends `" DONE"` twice, so marking is not idempotent |
| ToDoList.RemoveAdded | ToDoList.py:16-25 | deleting the entry just added at the end gives the old list back |
| ToDoList.ToDoList.constructor | ToDoList.py:5-6 | a new list is empty |
| ToDoList.ToDoList.AddTask | ToDoList.py:16-17 | the task is appended at the end |
| ToDoList.ToDoList.MarkTaskAsCompleted | ToDoList.py:20-21 | a valid index marks that entry as done; an invalid one raises `IndexError` and leaves the list unchanged |
| ToDoList.ToDoList.RemoveTask | ToDoList.py:24-25 | a valid index deletes that entry; an invalid one raises `IndexError` and leaves the list unchanged |
| ToDoList.Session | ToDoList.py:16-25 | two added tasks, the first marked twice and the last removed by index -1, leave `["shop DONE DONE"]` |
| Adventure.IndexOf | adventureGame.py:94 | `list.index`: a position exactly when the value occurs, holding the value, with no equal value before it |
| Adventure.RemoveFirst | adventureGame.py:96 | `list.remove`: one element fewer, exactly the first occurrence cut out |
| Adventure.LowerAll | adventureGame.py:92 | each room item lowered, position by position |
| Adventure.RemoveMatch | adventureGame.py:93-96 | removing the item found by a case-insensitive search removes that same position, since no earlier item matches |
| Adventure.FirstAt | adventureGame.py:94 | a position with no equal value before it is what `index` returns |
| Adventure.Player.constructor | adventureGame.py:5-16 | name and health as given; a missing inventory starts empty |
| Adventure.Player.TakeDamage | adventureGame.py:22-24 | health drops by exactly the amount, with no floor; inventory unchanged |
| Adventure.Player.Heal | adventureGame.py:26-28 | health rises by exactly the amount, with no cap; inventory unchanged |
| Adventure.Player.AddToInventory | adventureGame.py:30-32 | the item is appended; health unchanged |
| Adventure.Room.constructor | adventureGame.py:36-49 | name, description, items and exits as given |
| Adventure.Game.constructor | adventureGame.py:58-67 | the game starts in the start room with the given player and map |
| Adventure.Game.Move | adventureGame.py:69-82 | an exit whose target is not in the map raises `KeyError` and changes nothing; a non-exit changes nothing; otherwise the named room becomes current; in a closed map the move never fails and stays in the map |
| Adventure.Game.Take | adventureGame.py:84-99 | the first item that matches ignoring case moves, in its own spelling, from the room to the end of the inventory; with no match nothing changes; item counts are conserved |
| Adventure.Game.Use | adventureGame.py:101-113 | reports exactly whether the player holds the item |
| Adventure.LayoutConnected | adventureGame.py:121-155 | in the game's map every room is filed under its own name, every exit leads into the map, and every exit can be walked back |
| Adventure.PredefinedRooms | adventureGame.py:121-155 | the four rooms with their exits and their one item each |
| Adventure.Wander | adventureGame.py:69-82 | in a closed map, any sequence of moves keeps the game inside the map |
| Adventure.TreasureMatches | adventureGame.py:91-94 | "treasure" matches the item "Treasure" at position 0 |
| Adventure.TreasureHunt | adventureGame.py:69-99 | north, east, east from the entrance reach the treasure room, and taking "treasure" moves "Treasure" into an empty inventory |
| AdventureVariant.VariantClosed | AdventureGame.py:80-93 | in the variant map every exit still names a key, so `move` never raises |
| AdventureVariant.VariantMisnamed | AdventureGame.py:88-93 | the variant map files rooms under other names, and no room in it is named "Forest Entrance" |
| AdventureVariant.VariantOneWay | AdventureGame.py:80-93 | the variant map has an exit that cannot be walked back |
| AdventureVariant.VariantRooms | AdventureGame.py:80-105 | the rooms and map of that file; the start room that `main` builds is not in the map |
| AdventureVariant.Miswired | AdventureGame.py:44-106 | moving north from the start lands in the room named "Cave Entrance", and no later move returns to the start room |
| BlockChain.Blockchain.constructor | blockChain.py:8-13 | a new chain holds only the genesis block (number 1, no transactions, proof 100, previous hash "1") and no pending transactions |
| BlockChain.Blockchain.LastBlock | blockChain.py:74-76 | the last block, numbered with the chain's length in a valid chain; `IndexError` exactly on an empty chain |
| BlockChain.Blockchain.NewBlock | blockChain.py:15-38 | the next number, the pending transactions and the given proof; the given previous hash, or when it is falsy the hash of the last block; pending list reset; `IndexError` before any change exactly when the hash is falsy and the chain is empty; numbering kept |
| BlockChain.Blockchain.NewTransaction | blockChain.py:40-58 | the transaction is appended to the pending list and the chain is untouched; the result is the next block's number, or `IndexError` exactly on an empty chain |
| BlockChain.Blockchain.ProofOfWork | blockChain.py:78-93 | the least non-negative proof that the validity test accepts |
| BlockChain.Example | blockChain.py:112-122 | the sample run ends with two blocks: the genesis block, then block 2 holding both transactions, a valid proof, and the genesis block's hash |
| ContactBook.ParseLine | contactBook.py:49 | `ValueError` exactly when the line does not split into three comma-separated parts; otherwise the three stripped parts, in that order |
| ContactBook.SplitToString | contactBook.py:49 | a contact's line, with no comma in any field, splits back into the name and the two padded fields |
| ContactBook.StripFields | contactBook.py:49 | stripping the padded fields of a contact without commas and without whitespace at the ends of its fields gives the fields back |
| ContactBook.ParseToString | contactBook.py:14-49 | parsing the line written for a contact without commas and without whitespace at the ends of its fields (newlines inside are allowed) gives that contact back |
| ContactBook.Translate | contactBook.py:47 | reading in text mode leaves no '\r' and never lengthens the text |
| ContactBook.TranslatePlain | contactBook.py:47 | a text without '\r' is read exactly as written |
| ContactBook.TranslateAppendPlain | contactBook.py:47 | a '\r'-free prefix is read as written, and the rest is read on its own |
| ContactBook.TranslateBreaks | contactBook.py:47-48 | both `"\r\n"` and a lone '\r' are read as '\n', so each ends a line |
| ContactBook.LineEnd | contactBook.py:48 | the first line of the text as read ends at its first newline, or at the end of the text |
| ContactBook.Lines | contactBook.py:48 | iterating a file yields only non-empty lines |
| ContactBook.LinesCons | contactBook.py:48 | a line ended by its only newline is the first line of the text that starts with it |
| ContactBook.SavedSnoc | contactBook.py:40-41 | writing one more contact appends its line to the file text |
| ContactBook.LinesOfSaved | contactBook.py:40-48 | the lines of a saved file are the contacts' lines, one per contact, in order |
| ContactBook.LoadSpec | contactBook.py:46-54 | loading keeps the contacts of the lines before the first line that does not parse and reports that line's `ValueError`; it succeeds exactly when every line parses, and then keeps one contact per line |
| ContactBook.LoadStep | contactBook.py:48-50 | one more line either adds its contact or ends the load with its error |
| ContactBook.LoadAll | contactBook.py:48-50 | lines that all parse load as their contacts, with no error |
| ContactBook.SavedPlain | contactBook.py:36-41 | the saved text of clean contacts holds no '\r' |
| ContactBook.LoadSaved | contactBook.py:36-54 | reading back in text mode and loading the saved text of clean contacts (no comma, '\n' or '\r' inside a field, no whitespace at its ends) gives every contact back, with no error |
| ContactBook.ReturnInField | contactBook.py:40-54 | a field holding '\r' is saved, then read back as two lines, and the first does not unpack, so nothing is loaded: why clean fields exclude '\r' |
| ContactBook.ContactBook.constructor | contactBook.py:19-22 | a new book is empty and uses "contacts.txt" |
| ContactBook.ContactBook.AddContact | contactBook.py:24-25 | the contact is appended; the file name is unchanged |
| ContactBook.ContactBook.ToStringAsWritten | contactBook.py:31-34 | as written, the method returns `None` |
| ContactBook.ContactBook.ToString | contactBook.py:31-34 | with the missing return, the text of the book, the same text a save writes |
| ContactBook.ContactBook.SaveContacts | contactBook.py:36-41 | a given name replaces the file name; the file written is the current name, with one line per contact; the book is unchanged |
| ContactBook.ContactBook.LoadContacts | contactBook.py:43-54 | a new name different from the current one is adopted; a missing file reports `FileNotFoundError` and changes no contact; otherwise the file is read in text mode, its lines are parsed, the loaded contacts are appended and the outcome is the load's |
| ContactBook.SaveThenLoad | contactBook.py:21-54 | saving a book of clean contacts and loading the file into a new book gives the same contacts |
| CorruptFile.Shift | corruptFile.py:15-21 | a byte rises by 100 modulo 256 |
| CorruptFile.ShiftInverse | corruptFile.py:21 | the shift is a bijection on bytes: shifting by 156 undoes it both ways |
| CorruptFile.ShiftAll | corruptFile.py:20-21 | same length, every byte shifted at its own position |
| CorruptFile.RewritePointwise | corruptFile.py:20-21 | rewriting at distinct positions shifts exactly the listed bytes, once each, and leaves the rest alone |
| CorruptFile.RewritePermutation | corruptFile.py:14-21 | with a sample that lists every position once, the rewrite shifts the whole content |
| CorruptFile.OrderIndependent | corruptFile.py:16-21 | the result does not depend on which order the sample comes in, so the seed does not matter |
| CorruptFile.CoversAll | corruptFile.py:17-18 | a sample of `len` distinct positions below `len` contains every position |
| CorruptFile.DistinctSetSize | corruptFile.py:18 | distinct positions make a set of the same size |
| CorruptFile.Below | corruptFile.py:18 | `range(n)` as a set holds exactly the numbers below `n`, `n` of them |
| CorruptFile.Corrupt | corruptFile.py:11-21 | after the loop over the sample, the buffer is the original rewritten at the sampled positions in sample order, which is the original with every byte shifted |
| Decorators.Factorial | decorators.py:244-247 | at least 1 and at least `n`; 1 for 0 and 1 |
| Decorators.ProductSplit | decorators.py:247 | a product of consecutive numbers splits off its last factor |
| Decorators.FactorialIsProduct | decorators.py:234-247 | `factorial(n)` is `1 * 2 * ... * n` |
| Decorators.FactorialDivisible | decorators.py:244-247 | every number from 1 to `n` divides `factorial(n)` |
| Decorators.Profile | decorators.py:31-76 | an exception of the wrapped function is raised again; 'return' mode without `return_result` gives the report; every other mode gives the wrapped function's own result |
| Decorators.StdoutTransparent | decorators.py:51-71 | in 'stdout' mode the caller gets exactly what the wrapped function returned or raised |
| Decorators.Conditions | decorators.py:166 | one `col = ?` condition per column, in order |
| Decorators.OccurrencesAppend | decorators.py:166-167 | counting a character is additive over concatenation |
| Decorators.OccurrencesJoin | decorators.py:166 | joining with a separator free of the character adds up the parts' counts |
| Decorators.Placeholders | decorators.py:166-173 | without '?' in a column name, the WHERE clause has exactly one placeholder per column, as many as the values passed to `execute` |
| Decorators.UniqueValues | decorators.py:170 | the keyword argument of every column, in order; `KeyError` exactly when some column has no keyword argument |
| Decorators.CheckDuplicateData | decorators.py:162-180 | the `wrapper`: `KeyError` when some unique column has no keyword argument; otherwise `ValueError` when the database counts a matching row, and the wrapped call's outcome when it counts none |
| Decorators.CallGoesThrough | decorators.py:162-180 | the wrapped call's outcome comes back, whatever it is, exactly when every unique column has a keyword argument and the count is 0; any other result is `KeyError` or `ValueError` |
| Decorators.QueryOccurrences | decorators.py:165-166 | the fixed text of `SELECT COUNT(*) FROM ... WHERE ...` holds no placeholder, so the query's placeholders are those of the table name and the WHERE clause |
| Decorators.QueryMatchesValues | decorators.py:165-172 | with no '?' in the table and column names, the query sent to `execute` has one placeholder per value passed, and the values are the columns' keyword arguments in column order |

## Left out

- File reading and writing (`read_file`, `write_file`, the opens in `contactBook.py`, `wordFrequency.py` and `corruptFile.py`): a file is a string, bytes or a map from file names to contents, and `os.path` name handling in `corruptFile.py`, including the output file name, is not modelled.
- Console output: every `print`, the `display_*` methods, `print_list` in `primeNumbers.py`, the "map" message printed by `use`, and the demo `main` functions beyond the runs modelled as example methods.
- Interactive loops driven by `input()`: the command loops of the two adventures and of `ToDoList.py`, and `user_interface` in `passwordGenerator.py`. `Adventure.Wander` keeps only the moves of the adventure loop.
- Randomness: `random.choice` in the password generator is an arbitrary pick from the pool. `random.sample` in `corruptFile.py` is an arbitrary permutation, so `random.seed` plays no part. `random_number`, `get_shifted_codes(generate=True)` and `generate_codes` in `pigCypher.py` are left out, because the loop of `generate_codes` never appends to its list and so never ends.
- Heap internals: `heappop` removes some node of least count. Sift order and tie-breaking are not fixed, and no property depends on them.
- `hashlib` SHA-256, `json.dumps` and the block timestamp from `time()`: the block hash and `valid_proof` are function parameters and a block carries no timestamp.
- BlockChain.Blockchain.ProofOfWork: requires that some proof is valid, because otherwise the source's search never ends.
- Floating point: `int(x ** 0.5)` in `primes_under_n` is read as `math.isqrt`; `profile`'s time, CPU and memory measurements via `time`, `psutil` and `inspect` are left out, and its report holds only the function name and result.
- Decorators.Factorial: takes a `nat` and is unbounded. For a negative `n` the source recurses, through the `profile` wrapper, until Python raises `RecursionError`, which every wrapper raises again, and no report is printed. A large `n` fails the same way, sooner than undecorated code, because each level adds the wrapper's frame. For every other `n`, each recursive call prints its own profile report.
- `sqlite3` and the `Database`, `transactional`, `create_table`, `delete_data` and `insert_data` code of `decorators.py`: the duplicate check keeps its query text, its values and its decision. The row count that `SELECT COUNT(*)` returns is the function parameter `countRows`, and the wrapped call's outcome is the parameter `call`.
- ContactBook.Lines: splits only at '\n'. Reading in text mode is modelled separately by `ContactBook.Translate`, which first turns `"\r\n"` and a lone '\r' into '\n'. Writing in text mode would turn '\n' into `os.linesep`; the model writes '\n' as POSIX systems do.
- PasswordGenerator.GeneratePassword: the default arguments of `generate_password` (`length=20`, all four character classes selected) are not modelled; the model takes all five arguments, as the only caller, `generate_and_evaluate_password`, passes them.
- Unicode: `isdigit`, `lower`, `split()`, `strip()`, `\d` and `\W` are modelled on ASCII.
- Adventure.Game.constructor: the map is a field of the game instead of the module-level `predefined_rooms`, so one game reads one fixed map.
- Python list aliasing: the inventory list passed to `Player` and the item lists passed to `Room` are copied as values, so a caller's later change to the same list is not seen.
- `bank.py`: float balances, `uuid4` numbers and `random.uniform` deposits, and its `close_account` loop, which does not advance its index and so does not terminate.
- `ToDoListwithTkinterUI.py`: Tkinter, `messagebox`, `datetime` and files around the same list behaviour as `ToDoList.py`.
- The machine-learning and numeric files (`decisionTree.py`, `gridSearch.py`, `logisticRegresion.py`, `categoricalData.py`, `pytorch0.py`, `pytorch1.py`), `multithreadingWithSharedData.py` and `memoryUdageTracking.py`: library wrappers, floating point, threads and process memory.

The comment next to the second example of `reverseWords.py` expects `"gnidoC egnellehC"`, but the code reverses `"Challenge"` to `"egnellahC"`; the model follows the code.

## Findings

| source | as written | input that shows it | evidently intended | confidence | as-written member | corrected member |
|---|---|---|---|---|---|---|
| dataCompression.py:21-29 | `rle_decompression` reads one digit as the whole count, so a run of ten or more copies does not come back | twelve `'a'`s compress to `"12a"`, which decompresses to `"2aa"` | read the whole numeral that `str(count)` wrote, so the round trip holds for every digit-free text | not executed | RunLength.TwelveCopies | RunLength.CorrectedRoundTrip |
| contactBook.py:31-34 | `ContactBook.to_string` builds the text of the book but has no `return`, so it returns `None` | any book, the empty one included | return the concatenated contact lines | not executed | ContactBook.ContactBook.ToStringAsWritten | ContactBook.ContactBook.ToString |
| AdventureGame.py:88-93 | the map files the clearing under "Forest Entrance" and the cave under "Forest Clearing", and the start room is not in it | moving north from the start lands in the room named "Cave Entrance", and the start room is never reached again | each room filed under its own name, with every exit leading back, as in `adventureGame.py` | not executed | AdventureVariant.Miswired | Adventure.LayoutConnected |
