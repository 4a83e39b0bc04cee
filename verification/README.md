# StringHandler: the in-memory line source of PHP-po-parser

PHP-po-parser reads gettext PO files through a *handler* that hands the
parser one line at a time. `StringHandler` is the handler for text that is
already in memory. Its constructor splits the text at every line feed with
PHP's `explode`. A cursor then walks over the pieces:

- `getNextLine` returns the piece under the cursor and advances, or returns
  `false` once no piece is left;
- `ended` tests whether the cursor has reached the line count;
- `close` rewinds the cursor and returns `true`;
- `save` does nothing.

This project models that class in Dafny and proves its properties.

- `explode.dfy` (module `Explode`) models `explode("\n", s)` as `Split`. Its
  inverse is `Join`, which is PHP's `implode("\n", …)`. The module proves the
  round trip in both directions, that no piece contains a line feed, and
  that there is one more piece than there are line feeds. Splitting the empty
  text gives one empty piece.
- `string_handler.dfy` (module `StringHandler`) models the handler. Its state
  is an immutable value `Handler(strings, total, line)`, and each PHP method
  is a function from the state before the call to the state after it and the
  call's return value. `Valid()` is the invariant `total == |strings|` and
  `0 <= line <= total`. `Run` applies a sequence of calls. `Pull` performs
  `k` reads in a row, and `Drain` reads until `ended`, which is how a
  consumer uses the handler.

## Model

| member | source | states |
|---|---|---|
| Explode.Split | src/Sepia/Handler/StringHandler.php:57 | `explode` on a line feed always yields at least one piece, and no piece contains a line feed |
| Explode.JoinSplit | src/Sepia/Handler/StringHandler.php:57 | joining the pieces with line feeds gives back the input exactly |
| Explode.SplitJoin | src/Sepia/Handler/StringHandler.php:57 | splitting a line-feed join of a non-empty list of line-feed-free pieces gives back that list |
| Explode.SplitUnique | src/Sepia/Handler/StringHandler.php:57 | the pieces are the only non-empty, line-feed-free list that joins to the input |
| Explode.SplitCount | src/Sepia/Handler/StringHandler.php:57-58 | the number of pieces, and so the handler's `total`, is the number of line feeds in the input plus one |
| Explode.SplitAppendPlain | src/Sepia/Handler/StringHandler.php:57 | appending text without a line feed to the input only lengthens the last piece |
| Explode.SplitAppendSeparator | src/Sepia/Handler/StringHandler.php:57 | appending a line feed to the input adds a new empty last piece |
| StringHandler.New | src/Sepia/Handler/StringHandler.php:54-59 | after construction the state is valid, the cursor is 0, the lines join back to the input and contain no line feed, `total` is the line-feed count plus one, and `ended` is false even for empty input |
| StringHandler.EmptyInputOneLine | src/Sepia/Handler/StringHandler.php:57-58 | the empty text gives exactly one empty line, so `total` is 1 and the first read returns an empty line, not `false` |
| StringHandler.NextLineOf | src/Sepia/Handler/StringHandler.php:64-74 | a line comes back exactly when the cursor indexes an existing line; then it is that line and only the cursor moves, by one; otherwise the result is `false` and the state is unchanged; validity is preserved |
| StringHandler.CloseOf | src/Sepia/Handler/StringHandler.php:87-92 | `close` returns `true`, puts the cursor at 0, leaves the lines and the count alone and preserves validity |
| StringHandler.SaveOf | src/Sepia/Handler/StringHandler.php:101-103 | `save` leaves the whole state unchanged, whatever its output and parameters |
| StringHandler.IsEnded | src/Sepia/Handler/StringHandler.php:79-82 | on a valid state `ended` is true exactly when the next `getNextLine` would return `false` |
| StringHandler.EndedIffNoLine | src/Sepia/Handler/StringHandler.php:79-82 | on a valid state `ended` holds exactly when `getNextLine` would return `false` |
| StringHandler.EndedIsFixedPoint | src/Sepia/Handler/StringHandler.php:69-73 | once ended, `getNextLine` returns `false` and leaves the state alone, so repeated calls keep returning `false` |
| StringHandler.PullReads | src/Sepia/Handler/StringHandler.php:64-74 | `k` reads in a row return the next lines while any remain and `false` afterwards, and the cursor stops at the end |
| StringHandler.Drain | src/Sepia/Handler/StringHandler.php:64-82 | reading until `ended` yields exactly the lines from the cursor to the end and leaves the cursor at `total` |
| StringHandler.ReadBackInput | src/Sepia/Handler/StringHandler.php:54-74 | reading a fresh handler to the end yields lines that join back to the input, one more than its line feeds |
| StringHandler.ReplayAfterClose | src/Sepia/Handler/StringHandler.php:87-92 | after `close`, reading to the end yields all lines from the first, and the same lines again after a full read followed by `close` |
| StringHandler.CloseRestoresFresh | src/Sepia/Handler/StringHandler.php:87-92 | after any calls, `close` returns the handler to exactly its freshly constructed state |
| StringHandler.ApplyPreserves | src/Sepia/Handler/StringHandler.php:64-103 | each of `getNextLine`, `ended`, `close` and `save` preserves validity and never changes the lines or the count |
| StringHandler.RunPreserves | src/Sepia/Handler/StringHandler.php:64-103 | any sequence of calls preserves validity and leaves the lines and the count unchanged |
| StringHandler.ReachableInvariant | src/Sepia/Handler/StringHandler.php:54-103 | every state reachable from construction is valid, still holds exactly the line-feed pieces of the input (one empty line for empty input), and its count is the line-feed count plus one |

## Left out

- The parser (`Parser`), the file handler (`FileHandler`) and the handler interface are not part of this model. The PO line classification, catalog and serializer live there.
- tests/poparserTest.php is not modelled. Its assertions are about the parser and read fixture files from disk. Its only uses of `StringHandler('')` check parser options and handler swapping.
- PHP's `string|false` dynamic return is modelled as the datatype `NextLine`. The `isset` test on a piece reduces to an index bound, because `explode` never yields `null`.
- PHP's integer width is not modelled. The cursor never goes past the number of pieces, so it cannot overflow.
- The contents of `save`'s `$output` and `$params` are not modelled, because the method ignores them. They are typed as a string and a string map.
- PHP strings are byte strings, while the model uses Dafny `string`, a sequence of characters. No behaviour is lost: the byte 0x0A never occurs inside a multi-byte UTF-8 sequence, so splitting on a line feed gives the same pieces either way, and the model never measures line lengths.
