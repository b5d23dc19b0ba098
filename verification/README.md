# Dental-product chatbot: query resolution

A Dafny model of the query-resolution core of `DentalProductChatbot`. The chatbot matches a user's question to one row of a fixed product table and answers with text a language model writes from that row. A session holds two pieces of state:

- `conversation_history`: an append-only list of `(is_user, msg)` turns.
- `last_product_index`: the row last discussed, unset at construction.

One `process_query` call is a transition over that state:

1. Log the user's turn.
2. Ask the model for a row number. Validate the reply into a row or the sentinel `-1`.
3. On `-1`, reply with a fixed request for more detail. Otherwise remember the row and ask the model for an answer. The answer call is shown the row and the last three turns, rendered as `Usuario:` / `Asistente:` lines.
4. Log the reply as the assistant's turn and return it.

The two model calls are not modelled. Each becomes an input of the step: what the call produced, either an exception or the reply's text (`SelectionReply`, `GenerationReply`). Everything else is pure functions over immutable values:

- the product table is a `seq<Catalog.Product>`;
- the state is `Chatbot.Session(history, lastProduct: Option<nat>)`;
- a query is `Chatbot.ProcessQuery`, and a sequence of queries is `Chatbot.Run`.

Modules:

- `Wrappers`: `Option`.
- `Strings`: Python's `str.strip()` and `"\n".join`, with `split("\n")` as the join's inverse.
- `Integers`: Python's `int(text)` and `str(n)`. Printing then reading gives the integer back, and reading then printing gives the text back on canonical spellings.
- `Catalog`: the product row and the numbered product listing sent with every selection request.
- `Conversation`: turns, the `history[-3:]` window and its rendering.
- `Chatbot`: the selection guard, the answer step, the query transition and runs of queries.

Notes on what the code does:

- The selection request carries only the product listing and the query. It does not carry the recent conversation.
- The four fixed replies are a parameter of the step, `Chatbot.Fallbacks`: the reply to a selection of nothing, the range guard's not-found text, the apology for a failed answer call, and the outer apology. `Chatbot.SpanishFallbacks` holds the code's Spanish strings (`src/chatbot.py` lines 151, 87, 130 and 162). The contracts speak of the fields, so they hold for these strings and for any others.
- Loading the table needs only the name, objective and advantages columns, because building the search text reads only those. A table without the instructions, presentation or more-information column loads fine. Every query that selects a row of it then raises a `KeyError` inside the answer step, before the model call and outside its `try`. The query's own handler turns that into the outer apology, "Hubo un error generando la respuesta..." (`responseError`). `Catalog.Product` keeps those three columns as `Option<string>`, and `ProcessQuery` states exactly when the outer apology is the reply.
- The answer step's range guard, with its "no pude encontrar un producto que coincida" text, is never reached from a query. Selection has already checked the range. `ProcessQuery`'s contract shows this: a selected row is answered either through a model request or with the outer apology.

## Model

| member | source | states |
|---|---|---|
| Strings.SkipSpace | src/chatbot.py:58 | The left scan stops at the first non-whitespace character, every character it passes being whitespace, or at the end of the text. |
| Strings.SkipSpaceBack | src/chatbot.py:58 | The right scan stops just past the last non-whitespace character, every character it passes being whitespace, or at the left end. |
| Strings.JoinLines | src/chatbot.py:39-42 | `"\n".join(parts)`. Its contract is in its partners: SplitJoinLines (splitting at line breaks undoes joining when no part holds a line break) and JoinLinesSnoc (appending a part adds one newline and then the part). |
| Strings.SplitJoinLines | src/chatbot.py:39-42 | When the list is non-empty and no part holds a line break, `split("\n")` of `"\n".join(parts)` gives back `parts`. |
| Strings.JoinLinesSnoc | src/chatbot.py:109-112 | Appending a part to a non-empty join adds exactly one newline and then the part. |
| Strings.Strip | src/chatbot.py:58 | The stripped reply is no longer than the reply, and neither of its ends is whitespace (Python's `str.isspace` set). |
| Strings.StripSplit | src/chatbot.py:58 | Stripping removes only whitespace: the reply is the stripped text with whitespace before and after it. |
| Strings.StripOf | src/chatbot.py:58 | Whatever whitespace surrounds a text with non-blank ends, stripping returns exactly that text. Together with StripSplit, this pins `strip()` down. |
| Integers.ShowNat | src/chatbot.py:40 | The row number printed in the listing is a non-empty run of ASCII digits with no leading zero, whose decimal value is the row number. |
| Integers.ParseInt | src/chatbot.py:62 | Text that `int(result)` accepts is non-empty and ends in a digit, and a negative result needs a leading `-`. |
| Integers.StrayCharacterRejected | src/chatbot.py:62 | A text with any character that is neither a digit nor a leading sign, such as `"1a2"`, is rejected, so `find_relevant_product` returns `-1` for it. |
| Integers.ParseIntMeaning | src/chatbot.py:62 | `int(result)` accepts exactly an optional `+` or `-` followed by one or more ASCII digits. The value is the digits' decimal value, negated after a `-`. |
| Integers.LeadingZerosValue | src/chatbot.py:62 | Leading zeros add nothing to the decimal value of a run of digits. |
| Integers.ZerosIgnored | src/chatbot.py:62 | Digits after leading zeros read as their own value. |
| Integers.PlusIgnored | src/chatbot.py:62 | A `+` sign, with or without leading zeros after it, reads as the value of the digits. |
| Integers.MinusNegates | src/chatbot.py:62 | A `-` before a run of digits reads as the negation of what the digits read as. |
| Integers.NonCanonicalSpellings | src/chatbot.py:62 | Spellings that `str` never prints are still read: `"+5"` is 5, `"007"` is 7, `"-0"` is 0 and `"-007"` is -7. |
| Integers.ParseShowInt | src/chatbot.py:62 | Every integer, printed in decimal, is read back by `int()` as itself. |
| Integers.ShowParseInt | src/chatbot.py:62 | Reading a canonical decimal spelling and printing the value gives the same text back. Parsing and printing are inverses on canonical text. |
| Catalog.Listing | src/chatbot.py:39-42 | An empty table lists as the empty text. Otherwise the listing starts with row 0's line, `0. {name} - {objective}`. |
| Catalog.ListingHasOneLinePerRow | src/chatbot.py:39-42 | When no name or objective holds a line break, the listing has exactly one line per row, in row order. Line `i` is `{i}. {name} - {objective}` of row `i`. |
| Chatbot.SpanishFallbacks | src/chatbot.py:87-162 | The four fixed replies, character for character: the no-match text of line 151, the not-found text of line 87, the apology of line 130 and the outer apology of line 162. It has no contract of its own; its value is the statement. |
| Chatbot.FindRelevantProduct | src/chatbot.py:58-77 | The result is `-1` or a row of the table. It is a row exactly when the call returned text whose stripped form parses to an integer in `[0, n)`, and it is then that integer. An exception, a non-integer or an out-of-range integer gives `-1`. |
| Chatbot.ListedNumberSelects | src/chatbot.py:39-67 | A reply that spells row `i`'s listed number, with any whitespace around it, selects row `i`. |
| Chatbot.OutOfRangeNumberSelectsNothing | src/chatbot.py:61-70 | A reply that spells an integer outside the table, the literal `-1` included, selects nothing. |
| Chatbot.GetProductResponse | src/chatbot.py:86-130 | An index outside the table returns the fixed not-found text and sends no request. A row missing a detail column raises. Otherwise the request carries the row, the recent-conversation block and the query, and the text is the model's reply, or the apology when the call raised. |
| Chatbot.NotFoundIgnoresModel | src/chatbot.py:86-87 | For an index outside the table, the answer step's result does not depend on the model's reply, so no call is made. |
| Chatbot.ProcessQuery | src/chatbot.py:132-169 | The log grows by exactly the user's turn and then the assistant's turn. The returned text is the logged reply, and validity of the last product is preserved. On `-1`, the last product is unchanged, the reply asks for detail and no answer request is sent. On a row `i`, the last product becomes `i`. A request is sent exactly when the row has every column, and the reply is then the model's text or the apology; otherwise the reply is the outer apology. The request's block is the window of the log that already holds the query. |
| Chatbot.NamedRowIsAnswered | src/chatbot.py:152-159 | When the reply names a complete row and the model answers `T`, the query returns exactly `T` and that row becomes the last product. |
| Chatbot.UnlistedNumberIsNoMatch | src/chatbot.py:145-151 | When the reply names a number outside the table, the query returns the request for detail and keeps the last product. |
| Chatbot.Run | src/chatbot.py:140-165 | After `k` queries, the log has grown by `2k` and its earlier turns are unchanged. Query `j` is turn `2j` after the starting log, as a user turn, and turn `2j + 1` is an assistant turn. Validity of the last product is preserved, and once a product is set it is never unset. |
| Chatbot.NewSession | src/chatbot.py:18-19 | The constructor starts with an empty log and no last product, which is valid for every table. |
| Chatbot.RunFromNewIsValid | src/chatbot.py:18-19 | From the state the constructor sets up, the last product is unset or a row of the table after any sequence of queries. |
| Conversation.RecentTurns | src/chatbot.py:111 | `history[-3:]` holds `min(3, n)` turns: the latest ones, oldest first. |
| Conversation.ContextText | src/chatbot.py:109-112 | An empty log renders as the empty block, and a one-turn log as that turn's `Speaker: msg` line alone. |
| Conversation.ContextEndsWithLatest | src/chatbot.py:109-112 | A log of two or more turns renders as earlier lines, a line break, and then the newest turn's `Usuario:` / `Asistente:` line. |
| Conversation.ContextLines | src/chatbot.py:109-112 | When none of the last `min(3, n)` messages holds a line break (older ones may), the block has exactly `min(3, n)` lines: the latest turns, oldest first, each as `Speaker: msg`. |
| Conversation.ContextEndsWithQuery | src/chatbot.py:140-159 | Because the query is logged before the answer call, the block the answer call sees ends with `Usuario: {query}` as a line of its own. |

## Left out

- The OpenAI client and both `chat.completions.create` calls are outside the model, being network calls. Their results are inputs of the step. Model names, temperatures, the system prompts and the wording of the product block are not modelled.
- A selection reply whose content is None is modelled as `SelectionFailed`. In the code, `.strip()` raises on it inside the `try`, with the same `-1` result.
- A generation reply whose content is None is left out. The code returns that None verbatim and logs it. The model's replies are strings.
- Loading the table from CSV with pandas, and the re-raise wrapping a load failure, are file I/O. The table is an input.
- `create_search_indices` is left out. Selection never reads its result, and it depends on Unicode lower-casing and pandas NaN propagation. Its only effect kept here is that a loaded table has the name, objective and advantages columns.
- Empty (NaN) cells are left out. pandas renders them as `nan` in the prompts, and the model has strings.
- The listing numbers rows `0..n-1`. This is the default index `read_csv` gives, which `iterrows` yields.
- Integers.ParseInt: models `int()` on ASCII digits only. Python also accepts underscores between digits and non-ASCII Unicode digits. Recent Python versions also reject texts of more than 4300 digits. The model's parse is an abstraction of `int()`.
- Logging through `print` is a side effect only.
- `streamlit_app.py` is user-interface plumbing and is left out. This includes the process-wide shared chatbot and the clear button, which does not clear the chatbot's own history.
