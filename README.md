# nicetools `Encrypt` codec in Dafny

This project models the substitution codec `Encrypt` of the nicetools utility
library (`tools.py`), together with the two small helpers beside it,
`merge_list` and `verify_string`.

An `Encrypt` object owns a *language*: a dict from source characters to
tokens. When no language is supplied, it builds one. The alphabet
`characteres` is the concatenation of lower- and upper-case Latin letters,
digits, a symbol string and lower- and upper-case Portuguese letters. It has
repeats, so the dict built from it has one key per distinct character. Every
key starts at the one-character placeholder `" "`. Then, key by key in
insertion order, random two-character tokens are drawn until one is not
already a value of the dict. Last, `"\n"` is added with the token `"\n"`
followed by one random alphabet character. `encrypt` replaces each character
by its token. `decrypt` cuts the text into slices of at most two characters at even
positions; the last has one character when the length is odd. It replaces each slice by the first key, in insertion order,
whose value it is, and raises `ValueError` when there is none.

Modules:

- `Common` (common.dfy): `Option`, `Result`, `Distinct`, and `FirstIndex`, which is
  `list.index` with `None` where Python raises.
- `Languages` (languages.dfy): a language is a `seq<(char, string)>`, the dict's
  entries in insertion order, so the order that `list.index` depends on is
  explicit. This module holds dict assignment (`Put`), the dict comprehension
  (`FromKeys`), the alphabet constants, and `Choose`. `Choose` is the
  specification of the resample loop: which tokens a stream of draws gives
  the keys.
- `Codec` (codec.dfy): the construction loop (`AssignTokens`, `NewLanguage`) and
  the class `Encrypt`. The class has the constructor, `Encrypt` and `Decrypt`.
  `Decoded` is the function that specifies `Decrypt`.
- `CodecProperties` (properties.dfy): chunking, the round trip, and the
  failure cases.
- `Tools` (tools.dfy): `MergeList` and `VerifyString`.

Randomness is an oracle, passed in as a parameter. `draws` is the sequence
of results of `random.choices(characteres, k=2)`, each a pair of characters.
`suffix` is the result of `random.choice(characteres)`. Python's `while True`
loop keeps drawing for as long as it needs. In the model, draws can run out:
`NewLanguage` then returns `None`. The constructor requires a stream long
enough that every key gets a token, which is the condition under which
Python's loop ends.

`"\n"` is not in `characteres`: it is added after the loop, as the last key.
A supplied language is used only when it is non-empty (`if language:`), so
an empty dict also leads to a generated language.

## Model

| member | source | states |
|---|---|---|
| `Common.FirstIndex` | tools.py:169 | `list.index`: `None` exactly when the element is absent; otherwise an index holding it, with no earlier index holding it |
| `Languages.Get` | tools.py:145 | `d[c]` fails exactly when `c` is not a key; otherwise the result is the value of the (first) entry whose key is `c` |
| `Languages.Put` | tools.py:130-132 | dict assignment. An existing key stays in place and a new key goes last. Afterwards `k` maps to `v` and every other key keeps its value |
| `Languages.FromKeys` | tools.py:124 | the dict comprehension has distinct keys, exactly the characters of the string, each mapped to the given value |
| `Languages.DefaultKeysAreAlphabet` | tools.py:112-124 | the default keys (before the newline) are distinct and are exactly the alphabet's characters, and `"\n"` is not one of them |
| `Languages.ForeignOutsideAlphabet` | tools.py:112-119 | neither the newline nor the euro sign is in `characteres` |
| `Languages.Choose` | tools.py:126-131 | tokens chosen by resampling: one per key, each of two characters, pairwise distinct, none among those already taken, each the token of some draw |
| `Languages.ChooseAccept` | tools.py:129-131 | accepting a draw that is not yet a value moves it from the stream to the chosen tokens |
| `Languages.NewlineTokenIsNew` | tools.py:132 | the newline token `"\n" + c` differs from every drawn token, because drawn tokens start with an alphabet character |
| `Codec.AssignTokens` | tools.py:126-131 | the resample loop succeeds exactly when `Choose` does. It keeps the keys and their order, and the values become the chosen tokens |
| `Codec.NewLanguage` | tools.py:110-132 | the default language: the keys are the default keys followed by `"\n"`, the values are the chosen tokens followed by `"\n" + suffix`, keys and values are distinct, and every value has length 2 |
| `Codec.Encrypt.constructor` | tools.py:108-132 | a non-empty supplied language is kept as it is, with no check of its values; otherwise the language is the default one described for `NewLanguage`. Either way no key occurs twice |
| `Codec.Encrypt.Encrypt` | tools.py:145-147 | succeeds exactly when every character is a key. Otherwise the KeyError names the first character that is not a key. Under two-character values the output is twice as long as the input |
| `Codec.Decoded` | tools.py:166-174 | succeeds exactly when every chunk is a value, and otherwise gives the ValueError with its message. On success there is one character per chunk: the key of the first entry carrying that chunk |
| `Codec.DecodedStep` | tools.py:167-172 | one iteration of the decrypt loop appends the key found for the current chunk |
| `Codec.Encrypt.Decrypt` | tools.py:163-174 | the loop returns exactly `Decoded` of the message's chunks |
| `CodecProperties.ChunksShape` | tools.py:164 | there are ceil(\|m\|/2) chunks. Each has two characters except a last one of one character when \|m\| is odd |
| `CodecProperties.ChunksOfToken` | tools.py:164 | a two-character prefix becomes the first chunk and the rest is chunked on its own |
| `CodecProperties.ChunksJoin` | tools.py:164 | joining the chunks gives back the message |
| `CodecProperties.EncryptFirst` | tools.py:145-147 | a successful encryption is the first character's token followed by the encryption of the rest |
| `CodecProperties.RoundTrip` | tools.py:145-174 | if the values all have two characters and are pairwise distinct, decrypt(encrypt(s)) == s for every `s` over the keys |
| `CodecProperties.SharedLanguage` | tools.py:121-122 | two codecs built with the same supplied invertible language: one decrypts what the other encrypts |
| `CodecProperties.OddLengthRejected` | tools.py:164-171 | under two-character values, every odd-length input raises ValueError |
| `CodecProperties.UnknownCharacterRejected` | tools.py:145 | with the default keys, encrypting `"€"` raises KeyError on `'€'` |
| `CodecProperties.FirstKeyWins` | tools.py:145-172 | for any language without repeated keys where entry `j` shares its two-character value with an earlier entry: encrypting the key of `j` gives that value, and decrypting the value succeeds with a different key, so the round trip fails |
| `Tools.MergeList` | tools.py:95-104 | without `unique`, the in-order concatenation of all arguments; with `unique`, the same elements with no repeats |
| `Tools.ConcatSplit` | tools.py:95-97 | concatenating `a + b` gives the concatenation of `a` followed by that of `b` |
| `Tools.ConcatMembers` | tools.py:95-97 | an element is in the merged list exactly when it is in one of the arguments |
| `Tools.ConcatLength` | tools.py:95-97 | the merged list's length is the sum of the arguments' lengths |
| `Tools.VerifyString` | tools.py:190-194 | true exactly when some element of the list is a substring of the string (the same as `any`), so false for an empty list and true whenever the list holds `""` |
| `Tools.ContainsEmpty` | tools.py:192 | the empty string is a substring of every string, as in Python's `in` |

## Left out

- `textlog`, `time_counter`, `scroll_to_element` and `is_word_similar`: file I/O and tracebacks, wall-clock timing with a floating-point mean and `print`, browser-driver calls, and floating-point scoring. None of these is part of the codec.
- `Encrypt.__str__`: it only prints the dict and returns `None`.
- The randomness of `random.choices` and `random.choice`: draws come from parameters, and their distribution is not modelled. The resampling loop is not proved to end. When the draws run out, `NewLanguage` returns `None` where Python would go on drawing.
- `Codec.Encrypt.constructor`: requires that the supplied draws give every key a token, since the model cannot loop forever the way Python's `while True` can.
- `Codec.Encrypt.constructor`: a supplied language is typed as one-character keys and string values, whereas Python accepts any dict. Keys of other lengths (which make `decrypt` emit other than one character per chunk) and non-string values (on which `"".join` raises `TypeError`) are not modelled. The model also keeps a copy of the dict where Python keeps a reference to the caller's dict, so later changes the caller makes to it are not seen by the model.
- Tools.MergeList: with `unique`, the order of the result is the model's own (first occurrences), not the unspecified order of Python's `set`; the `tupla` conversion to a tuple is left out.
- Python's `str.upper` is not modelled: the upper-case letter strings are written out as the characters it yields.
- Two independently generated languages rejecting each other's ciphertext is a probabilistic claim and is not stated.
