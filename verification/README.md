# waddle: chat cleaning and character vocabulary

waddle learns character embeddings with a skip-gram context model trained on
an exported WhatsApp chat; it also builds, but does not train, a
next-character LSTM on top of them.
This project models the two pure pieces at its front in Dafny:

- the chat cleaner (`waddle/whatsapp.py`). Every exported line starts with a
  20-character timestamp, which is removed. The next 14 characters are the
  sender field. A message whose text after the sender field is one of the
  messages `clean` treats as uninteresting is dropped: the export's
  placeholders `<media omitted>\n` and `missed voice call\n`, a blank
  message `\n`, or the empty string that a line ending inside its sender
  field leaves. The remaining messages are joined into one text. Only the
  characters among the 200 most frequent in that text are kept.
- the vocabulary (`waddle/text.py`). A `Text` lists the distinct characters of
  a text and builds a map from each character to its index and one from each
  index to its character. `encode_text` turns the text into indices, and
  `vocabulary_size` is the number of distinct characters.

Module `Sequences` (`sequences.dfy`) holds the shared notions: the set of
elements of a sequence, duplicate-freedom, occurrence counts, and the distinct
characters of a string in order of first occurrence. Module `Whatsapp`
(`whatsapp.dfy`) holds the cleaner and module `Vocabulary` (`text.dfy`) the
vocabulary.

Modelling choices:

- Python's slice `s[k:]` is `SliceFrom`. It yields the empty string when `s` is
  shorter than `k`, just as Python does, so short lines go through the cleaner
  without an error.
- `Counter(text).most_common(n)` orders characters by count, highest first.
  Equal counts keep the order in which the characters first occur in `text`
  (the counter's insertion order, which the ranking preserves). `Ranked`
  models this by repeatedly choosing the first character of highest count.
- `list(set(text))` has no defined order. `NewText` takes that order as a
  parameter `order`, with the requirement that it list every character of
  the text exactly once. Every vocabulary property is stated for all such
  orders.
- `clean` returns a Python list of one-character strings. The model returns a
  `string`, which is the same sequence of characters.
- The widths are fixed, as in the code: 20 characters of timestamp, then
  14 characters of sender. A line whose timestamp or sender field has a
  different width is cut at these positions anyway. `RetainedMessagesSingle`
  states exactly what happens to any one line, and `RetainedLine` restates it
  for a line in the expected layout.

## Model

| member | source | states |
|---|---|---|
| Whatsapp.SliceFrom | waddle/whatsapp.py:13 | `s[k:]` is empty when `s` has at most `k` characters and otherwise has `k` fewer; character `i` is `s[k + i]` |
| Whatsapp.SliceFromTwice | waddle/whatsapp.py:13 | slicing by `a` and then by `b` equals slicing by `a + b`, so `message[20:][14:]` is `message[34:]` |
| Whatsapp.RemoveTimestamp | waddle/whatsapp.py:11-13 | a line of at least 20 characters is its first 20 characters followed by the result; a shorter line gives the empty string |
| Whatsapp.FilterMessages | waddle/whatsapp.py:16-25 | a message is rejected exactly when it is `<media omitted>\n`, `missed voice call\n`, `\n` or empty |
| Whatsapp.RemoveTimestamps | waddle/whatsapp.py:34 | one result per line, in order, each the line without its timestamp |
| Whatsapp.Interesting | waddle/whatsapp.py:35 | a message that ends within its 14-character sender field is dropped; one with more than 18 characters after the sender field, longer than every uninteresting message, is kept |
| Whatsapp.KeepInteresting | waddle/whatsapp.py:35 | no more messages than given; every kept message is given and passes the filter after its 14-character sender field; every given message that passes is kept |
| Whatsapp.KeepInterestingAppend | waddle/whatsapp.py:35 | filtering keeps the messages in their order: filtering `a + b` is filtering `a` followed by filtering `b` |
| Whatsapp.RetainedMessages | waddle/whatsapp.py:34-35 | at most one message per line; every retained message is a line of the chat without its timestamp and passes the filter, and every line whose untimestamped message passes is retained |
| Whatsapp.RetainedMessagesAppend | waddle/whatsapp.py:34-35 | the retained messages of `a + b` are those of `a` followed by those of `b` |
| Whatsapp.RetainedMessagesSingle | waddle/whatsapp.py:34-35 | one line is retained, as the line without its timestamp, exactly when its text from position 34 on is not an uninteresting message; the sender field is characters 20 to 34 of the line |
| Whatsapp.Join | waddle/whatsapp.py:37 | the joined text is as long as all messages together |
| Whatsapp.JoinAppend | waddle/whatsapp.py:37 | joining `a + b` is joining `a` followed by joining `b` |
| Whatsapp.RetainedText | waddle/whatsapp.py:34-37 | the text `clean` works on is as long as the retained messages together, and empty for an empty chat |
| Whatsapp.RetainedTextAppend | waddle/whatsapp.py:34-37 | the text built from chat `a + b` is the text from `a` followed by the text from `b` |
| Whatsapp.RemoveAtElements | waddle/whatsapp.py:29 | removing position `k` loses exactly the element `s[k]` from a duplicate-free sequence and keeps it duplicate-free |
| Whatsapp.RemoveAtKeepsOrder | waddle/whatsapp.py:29 | if `x` comes before `y` after a removal, it came before `y` in the original sequence |
| Whatsapp.FirstMostCommonFrom | waddle/whatsapp.py:29 | the chosen position has the highest count from `from` on, and every earlier position from `from` on has a strictly lower count, so it is the first maximum |
| Whatsapp.FirstMostCommon | waddle/whatsapp.py:29 | the chosen candidate has the highest count of all, and every candidate before it has a strictly lower count |
| Whatsapp.Ranked | waddle/whatsapp.py:29 | `most_common(n)` yields `min(n, #candidates)` characters, all of them candidates |
| Whatsapp.RankedRest | waddle/whatsapp.py:29 | any other character is ranked exactly when it is ranked among the remaining candidates with one place fewer |
| Whatsapp.RankedNoDuplicates | waddle/whatsapp.py:29 | a ranking of duplicate-free candidates has no duplicates |
| Whatsapp.RankedDominates | waddle/whatsapp.py:29 | every ranked character occurs at least as often as every candidate left out |
| Whatsapp.RankedTiesGoFirst | waddle/whatsapp.py:29 | between a ranked and a left-out candidate with equal counts, the ranked one comes first among the candidates |
| Whatsapp.RankedDescending | waddle/whatsapp.py:29 | the ranking lists counts from highest to lowest |
| Whatsapp.RankedAll | waddle/whatsapp.py:29 | when `n` is at least the number of candidates, every candidate is ranked |
| Sequences.Distinct | waddle/whatsapp.py:29 | the counter's keys: each character of the text exactly once, and no other character |
| Whatsapp.DistinctFirstOccurrence | waddle/whatsapp.py:29 | the counter's keys are in order of first occurrence: if `x` comes before `y` among them, some `x` occurs in the text before any `y` |
| Whatsapp.MostCommon | waddle/whatsapp.py:29 | `Counter(text).most_common(n)` yields `min(n, number of distinct characters)` characters, none twice, all of them characters of the text |
| Whatsapp.IdentifyMostCommonCharacters | waddle/whatsapp.py:28-30 | the chosen set has `min(n, number of distinct characters)` members, all of them characters of the text |
| Whatsapp.MostCommonDominates | waddle/whatsapp.py:28-30 | every chosen character occurs at least as often as every character of the text that was not chosen |
| Whatsapp.MostCommonTiesGoFirst | waddle/whatsapp.py:28-30 | on equal counts, the chosen character comes first among the counter's keys, and so occurs in the text before any occurrence of the unchosen one |
| Whatsapp.MostCommonAll | waddle/whatsapp.py:28-30 | with room for every distinct character, the chosen set is the set of the text's characters |
| Whatsapp.KeepCharacters | waddle/whatsapp.py:40 | the filtered text is no longer than the text and uses only characters from the kept set |
| Whatsapp.KeepCharactersCounts | waddle/whatsapp.py:40 | a kept character occurs exactly as often as in the text, any other character not at all |
| Whatsapp.KeepCharactersAll | waddle/whatsapp.py:40 | when the text uses only kept characters, filtering returns it unchanged |
| Whatsapp.KeepCharactersAppend | waddle/whatsapp.py:40 | filtering keeps the characters in their order: filtering `a + b` is filtering `a` followed by filtering `b` |
| Whatsapp.Clean | waddle/whatsapp.py:33-40 | the result is no longer than the retained messages together and is empty for an empty chat; it uses only the 200 most common characters of the retained text, each exactly as often as in that text |
| Whatsapp.CleanKeepsSmallAlphabet | waddle/whatsapp.py:37-40 | when the retained text has at most 200 distinct characters, cleaning returns exactly that text |
| Whatsapp.RetainedLine | waddle/whatsapp.py:34-35 | a line made of a 20-character timestamp, a 14-character sender field and a message is retained, as sender field and message, exactly when the message is not an uninteresting one |
| Whatsapp.RetainedTwoLines | waddle/whatsapp.py:34-37 | of a text line and a `<media omitted>` line, the text is the first line's sender field and message |
| Whatsapp.CleanTwoLines | waddle/whatsapp.py:33-40 | a chat of one text line and one `<media omitted>` line cleans to the sender field followed by the text of the first line |
| Vocabulary.CharacterToIndex | waddle/text.py:7 | the map's keys are the characters of the order; the character at position `i` maps to `i`, and every value is a position holding its key |
| Vocabulary.IndexToCharacter | waddle/text.py:8 | the map is defined exactly on the positions of the order, and position `i` maps to `order[i]` |
| Vocabulary.NewText | waddle/text.py:4-8 | for every duplicate-free listing of the text's characters the constructed object is consistent, keeps the text and uses that listing |
| Vocabulary.EveryTextHasAnEnumeration | waddle/text.py:6 | every text has such a listing: its distinct characters in order of first occurrence |
| Vocabulary.Text.VocabularySize | waddle/text.py:13-15 | `vocabulary_size` is the number of distinct characters of the text |
| Vocabulary.Text.EncodeText | waddle/text.py:10-11 | one index per character of the text, each below `vocabulary_size`, each mapping back to that character through `index_to_character` |
| Vocabulary.DecodeEncode | waddle/text.py:7-11 | decoding `encode_text()` through `index_to_character` gives back the text |
| Vocabulary.IndexMapsAreDense | waddle/text.py:6-8 | `character_to_index` maps exactly the text's characters, injectively, to indices below `vocabulary_size`; `index_to_character` is defined exactly on `0 .. vocabulary_size - 1` |
| Vocabulary.IndexMapsAreInverse | waddle/text.py:7-8 | the two maps undo each other in both directions |

## Left out

- `load_chat_from_path` (`waddle/whatsapp.py:5-8`) reads a file. The model starts from the list of lines it returns.
- The order of `list(set(text))` is not modelled. It is a parameter of `NewText`, and every property holds for each possible order.
- `Text._text` is read by `encode_text` only. The model exposes it as the field `text`; privacy is not modelled.
- `clean` returns a list of one-character strings, while `Whatsapp.Clean` returns a `string` with the same characters in the same order.
- The training code (the model, its context windows, the character embedding) and the packaging are not part of this model.
