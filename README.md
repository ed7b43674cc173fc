# m3u8 core: attribute lists, the intrusive list, and the log-handler registry

This project is a Dafny model of the core of the `m3u8` C library:

- **`src/list.c`**: a circular doubly-linked list with a sentinel head. Nodes
  are embedded in the structures they link. `list.dfy` models nodes as a
  `Node` class with `next`/`prev` fields. A list is described by the ghost
  predicate `IsRing(head, elems)`: following `next` from the head visits
  `elems` in order and comes back to the head, and `prev` walks the same ring
  backwards. Each list operation states how that description changes.
- **`src/attr.c`**: the parser of M3U8 attribute lists
  (`KEY=value,KEY="quoted"`) and the operations on the parsed list.
  - `attr_match.dfy` models the code's regular expression
    `([A-Z0-9_-]+)=("[^"]*"|[^,]+)` under the POSIX rule that `regexec`
    follows: the leftmost match, and the longest of the matches that start
    there.
  - `attr.dfy` models `snipx`, which deletes a substring in place from a
    NUL-terminated character array. It also models `m3u8_attr_parse`, which
    builds one list node per match with the value's double quotes snipped,
    and `m3u8_attr_from_key`, `m3u8_attr_count` and `m3u8_attr_destroy`.
  - `attr_examples.dfy` works the parse out on small buffers, each a reduced
    form of a buffer in `tests/test_attr.cc`.
- **`src/logger.c`, the handler registry**: a fixed table of
  `LOGGER_SET_MAX_HANDLERS + 1` slots, ended by a sentinel slot that has no
  name and no function. `logger_add_log_handler` puts a handler in the
  sentinel's slot and moves the sentinel one slot on.
  `logger_remove_log_handler` shifts the handlers after the removed one a slot
  left. `logger_set_log_attribute` stores the log settings once and refuses
  every later call. `logger.dfy` models the table as an `array` field of a
  `Registry` object. Its operations are specified by the sequence functions
  `Added` and `Removed`, and lemmas state what those do to the registered
  handlers.

C out-parameters (`int* size`, `m3u8_attr_t** attr`) are modelled as an
`Option` of what the location holds before the call: `None` stands for a
NULL pointer. The method returns what the location holds afterwards. A NULL
`char*` argument is an `Option<string>`.

The parser strips double quotes from values (the `snipx` call at
`src/attr.c:67`). Several expectations in `tests/test_attr.cc` expect the
quotes to be kept (lines 97, 101 and 119). The model follows the code:
`AttrExamples.DuplicateKeysParsed` shows the quotes being stripped on a two-attribute
input.

`m3u8_list_remove` refuses only a self-linked node, which is the head of an
empty list. Removing the head of a non-empty list goes through: the ring
closes without it, and its first entry is left where the head was.
`List.Remove` states that case as well.

## Model

| member | source | states |
|---|---|---|
| List.Node.constructor | src/list.h:100-103 | a new node has both links null and carries its attribute's key and value |
| List.Init | src/list.c:7-23 | a NULL head is refused; otherwise the head is linked to itself, which is the empty ring |
| List.Ina | src/list.c:25-47 | any NULL argument is refused and nothing changes; otherwise the node becomes the first entry of the ring (`[node] + elems`) and faces its two new neighbours; on a head whose `next` is NULL it is hung after the head with a NULL `next`, and `head.prev` is left alone (the guard at src/list.c:39) |
| List.Inb | src/list.c:49-68 | any NULL argument is refused and nothing changes; otherwise the node becomes the last entry of the ring (`elems + [node]`) |
| List.Remove | src/list.c:70-89 | NULL or self-linked nodes are refused unchanged; otherwise the node's neighbours face each other, its own links become null, and the ring loses exactly that node (or, for the head, closes up under the first entry) |
| List.IsEmpty | src/list.c:91-102 | a NULL head is refused and the flag is left alone; otherwise the flag is set iff the head is self-linked, iff the ring has no entries |
| List.Count | src/list.c:104-131 | NULL head, NULL size or a head with a null link is refused and the size is left alone; otherwise the size becomes the number of entries of the ring |
| AttrMatch.KeyEnd | src/attr.c:34 | the end of the run of `[A-Z0-9_-]` characters: every character before it is a key character and the one at it is not |
| AttrMatch.RunEnd | src/attr.c:34 | the end of the `[^,]` run: no comma before it, and a comma or the end of the string at it |
| AttrMatch.QuotedEnd | src/attr.c:34 | the end of the `"[^"]*"` value at v when there is one, and it is the only such end |
| AttrMatch.MatchAt | src/attr.c:34 | the longest match of the pattern at p, found by hand: it starts at p and has a non-empty key and a non-empty value within the string; MatchAtCorrect proves it is the match POSIX prefers |
| AttrMatch.MatchAtCorrect | src/attr.c:34 | the match computed at p is a match of the pattern, its key is the only possible one and no match at p has a longer value; no match is found at p exactly when the pattern has none there |
| AttrMatch.NextMatch | src/attr.c:52 | what `regexec` reports on the text from `from` on: a match starting at or after `from`, within the string; NextMatchCorrect proves it is the leftmost-longest one |
| AttrMatch.NextMatchCorrect | src/attr.c:52 | the match found from `from` on is what `regexec` reports on the rest of the string: a match, none starting earlier, none longer at the same start, and none at all when nothing is found |
| Attr.CString | src/attr.c:17 | the C string held in a character array is the text before its first NUL, which ends it |
| Attr.MemmoveCut | src/attr.c:23 | after the memmove over one occurrence, the array holds the old C string with those characters cut out |
| Attr.FindSub | src/attr.c:22 | `strstr`: the first position where the substring occurs, and none when it does not occur |
| Attr.Snip | src/attr.c:15-25 | the result of repeatedly deleting the first occurrence is no longer than the input and contains no occurrence |
| Attr.SnipOneChar | src/attr.c:15-25 | snipping a one-character string removes exactly the occurrences of that character and keeps the rest in order |
| Attr.SnipQuoteLeavesNoQuote | src/attr.c:67 | a value snipped of `"` contains no double quote |
| Attr.Snipx | src/attr.c:15-25 | an empty substring leaves the array alone; otherwise the array's C string becomes the snipped old C string, still NUL-terminated |
| Attr.EntryOf | src/attr.c:61-67 | the attribute one match yields: its key has the matched length and is non-empty, and its value, snipped of `"`, has no double quote |
| Attr.Entries | src/attr.c:52-77 | the attributes the parse loop yields from `from` on: the attribute of the next match, then those from where it ends; EntriesBound, EntriesWellFormed and EntriesEmpty state its properties |
| Attr.EntriesBound | src/attr.c:52-77 | each parsed attribute takes at least three characters of the buffer, so there are at most a third as many attributes as characters |
| Attr.EntriesWellFormed | src/attr.c:52-77 | every parsed attribute has a non-empty key of `[A-Z0-9_-]` and a value without double quotes |
| Attr.EntriesEmpty | src/attr.c:52-77 | the parse yields nothing iff no part of the buffer matches the pattern; otherwise its first attribute is the leftmost-longest match |
| AttrExamples.DuplicateKeysParsed | tests/test_attr.cc:83-101 | on `K="v",K="v"`, a reduced form of the test's buffer without its tag prefix, both attributes are parsed, in order, with the quotes snipped from their values |
| AttrExamples.CommaInQuotesParsed | tests/test_attr.cc:13 | on `C="a,b",R=1`, a reduced form of the CODECS attribute of the seven-attribute test buffer, the comma inside quotes does not end the value: two attributes, the first with value `a,b` |
| AttrExamples.TagPrefixParsed | tests/test_attr.cc:24-43 | on `#X:B=1,A-B=2`, a reduced form of the test's `#EXT-X-STREAM-INF:BANDWIDTH=…,AVERAGE-BANDWIDTH=…`, the tag name is skipped and the second attribute keeps its whole key `A-B`, not the `B` it ends with |
| Attr.NewAttribute | src/attr.c:53-67 | a fresh unlinked node whose key is the matched key and whose value is the matched value with its quotes snipped |
| Attr.Parse | src/attr.c:27-82 | a NULL buffer or head is refused with nothing changed; otherwise the head starts a ring of fresh nodes whose attributes are exactly the attributes the pattern finds, in order |
| Attr.FindKey | src/attr.c:101-106 | the first position holding the key, none when no attribute has it |
| Attr.FromKey | src/attr.c:84-110 | any NULL argument is refused; otherwise the first node with the key is returned, or NOT_FOUND with the output left alone |
| Attr.Count | src/attr.c:112-130 | NULL arguments are refused; otherwise the size is the ring's length, or 0 for a head with a null link, because the list's error is ignored |
| Attr.Destroy | src/attr.c:132-158 | a NULL head is refused; otherwise every entry is unlinked (both links null) and the head is left an empty, self-linked ring |
| Logger.Initial | src/logger.c:22-32 | the table has `LOGGER_SET_MAX_HANDLERS + 1` slots |
| Logger.FirstSentinel | src/logger.c:219-224 | the first slot with no name and no function; no earlier slot is one |
| Logger.LiveCount | src/logger.c:260 | the number of slots at the front with both a name and a function; the slot after them has not both |
| Logger.FindName | src/logger.c:260-266 | the first registered slot with the name, and none when no registered slot has it |
| Logger.Added | src/logger.c:236-237 | the table after an add: same size, the handler in the first sentinel's slot and a sentinel in the next; AddRegisters proves it appends the handler to the registered ones |
| Logger.Removed | src/logger.c:273-279 | the table after removing slot i: same size, later registered handlers one slot left and a sentinel after them; RemoveUnregisters proves it deletes exactly that handler |
| Logger.InitialRegistered | src/logger.c:22-32 | the initial table registers the stdout and file writers, its first sentinel is slot 2, and every slot before it is live |
| Logger.AddRegisters | src/logger.c:236-237 | adding a live handler to a tidy table appends it to the registered handlers and moves the sentinel one slot on |
| Logger.RemoveUnregisters | src/logger.c:273-279 | removing the handler at i deletes exactly it from the registered handlers, keeps the rest in order and keeps the table tidy |
| Logger.AddThenRemove | src/logger.c:212-283 | adding a handler under a new name, then removing that name, gives back the registered handlers |
| Logger.Registry.constructor | src/logger.c:22-32 | the table starts as the initial table and no log attribute is set |
| Logger.Registry.Add | src/logger.c:212-241 | refused, unchanged, when the first sentinel is at LOGGER_SET_MAX_HANDLERS or beyond; otherwise the table becomes `Added` and stays sentinel-terminated |
| Logger.Registry.Find | src/logger.c:257-266 | the index of the first registered handler with the name, or -1 when there is none |
| Logger.Registry.Unlink | src/logger.c:273-279 | the shift and the sentinel write turn the table into `Removed` |
| Logger.Registry.Remove | src/logger.c:254-283 | HANDLER_NOT_FOUND, unchanged, when no registered handler has the name; otherwise the first one with it is removed |
| Logger.Registry.SetLogAttribute | src/logger.c:296-302 | the first call stores the attribute; every later call is refused and keeps the stored one |

## Left out

- Allocation failures are not modelled. This covers `malloc`/`strndup` in `m3u8_attr_parse` (MEM_ALLOC_ERROR) and `malloc`/`strcpy` in `logger_set_log_attribute` (RESOURCE_ALLOCATION_PROBLEM). The model's allocation always succeeds.
- Dead branches are omitted. These are `memset` returning NULL in `m3u8_list_init` and `logger_set_log_attribute`, `regcomp` failing on the fixed pattern, and the list-error paths of `m3u8_attr_parse`, which cannot fail on a non-NULL head.
- The `pmatch[0].rm_eo == 0` break in `m3u8_attr_parse` is omitted, because every match is at least three characters long.
- The second limit check in `logger_add_log_handler` (`src/logger.c:231-234`) is omitted, because the first check implies it.
- `free` in `m3u8_attr_destroy` is not modelled. Dafny has no deallocation: a destroyed entry is modelled as an unlinked node.
- List.Remove: a node whose links are NULL is excluded by its precondition. `src/list.h` promises INVALID_ARGS for that case, but the code dereferences the NULL links. A node that is not self-linked must be on a ring.
- List.Inb: a head with a NULL `prev` (a zero-filled node) is excluded by its precondition, because the code writes through `head->prev` (src/list.c:63) without a check.
- Attr.FromKey: a zero-filled `attrs` (NULL links) is excluded by its precondition, because the foreach walk at src/attr.c:101-102 follows the NULL `next` and reads the key of `container_of(NULL)`.
- Attr.Destroy: a zero-filled `attrs` (NULL links) is excluded by its precondition, because the loop at src/attr.c:143-144 reads `NULL->next`.
- List.IsEmpty: the NULL `is_empty` pointer is not modelled, because the code writes through it without a check.
- Attr.Parse: the buffer must hold no NUL character. A C string ends at its first NUL, so the buffer is the text before it.
- Character classes are modelled as ASCII: `[A-Z0-9_-]` matches those characters in the C locale. Locale-dependent collation is not modelled.
- Integer widths are not modelled. C `int` and `size_t` overflow are out of reach on real buffers, and the model's counts are unbounded.
- A NULL `name` passed to `logger_remove_log_handler` is not modelled; the code would pass it to `strcmp`.
- Logger.Registry.SetLogAttribute: a NULL `attr.path` is not modelled. The model's path is a string, and the code would pass NULL to `strlen` (src/logger.c:314).
- Handler functions are modelled by identity. The log writers, the dispatch in `logger()`, the mutexes, time formatting and file I/O are not modelled.
- `logger_set_log_attribute` copies the path string; the model stores the value.
- `src/m3u8.c`, `src/conate.c` and the tag parsers that call the attribute parser are not part of this model.
