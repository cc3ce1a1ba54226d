# The imap4d server of GNU Mailutils, in Dafny

This project models the IMAP4rev1 server of GNU Mailutils 3.14 and proves what its
design, and RFC 3501, promise of it.  Where the source keeps state and changes it in
place, so does the model: a growing byte buffer, a parse buffer that overwrites one byte
and puts it back, a flag table, the globals of a session.  Each such class or loop is
proved against a pure function, and the theorems are about that function.

| files | what they model |
|---|---|
| `Common` | optional values, case folding, decimal numbers |
| `Lexer`, `Unquote`, `TokBuf` | the pure lexer, the in-place unescaping, the token buffer |
| `ReadLine`, `CommandReader` | commands made of line segments and literals |
| `ParseBuf` | the second split of arguments at delimiters |
| `Section`, `SectionRoundTrip`, `SectionParser` | `BODY[...]` sections: parser, printer, parser with its fields |
| `WireForms` | commands, sections and literals, letter by letter |
| `FetchIo`, `HeaderFields`, `FetchRequest` | CRLF form, partial fetches, literal lengths, header selection, a fetch from the request to the bytes |
| `Search`, `SearchRoundTrip`, `SearchTrees`, `SearchGrammar`, `SearchEval`, `SearchWords`, `SearchParser`, `SearchAnswers` | SEARCH: tables, parser, its inverse, trees, exact grammar, evaluation, what the words of a client select, parser with its fields, responses |
| `MsgSet`, `SearchSets` | message sets: reading, UIDs, and what sets select in a SEARCH |
| `Expunge`, `Sync`, `ClientView`, `ClientServer`, `SearchSync` | expunge numbers, the flag table, what a client believes along a run, the same run on the table, and that its flags are those of SEARCH |
| `Session`, `SessionRules`, `SessionServer` | the states of a session as functions, the rules of every command, and the variables of the source |
| `Copy` | COPY and its rollback |
| `Signals` | deferral of signals around critical sections |
| `Namespace`, `PathVariables`, `NamespacePaths`, `LockFile` | mailbox names, paths and their variables, INBOX and other users, lock files |

What lies outside the server is a parameter or a nondeterministic choice: how long a read
is, whether it fails, what the user data base says (`Luck`), what another program does to
the mailbox (`Step`), how the library parses dates (`Library`), whether a field of a message
contains a text (`Message`), what a command in a path gives (`Env`).

Some promises turned out not to hold of the code.  Each is stated with the exact
condition under which it does hold, and most with an input on which it fails:

- a quoted string that ends in a backslash is closed late, unless it ends its line
  (`Lexer.QuoteRoundTrip`);
- a backslash before any other character makes the unescaping loop run for ever
  (`Unquote.UnquoteEnds`);
- a literal wrapped in double quotes loses them (`ReadLine.LiteralKept`);
- behind an empty argument the text that follows is split a second time
  (`ParseBuf.SplitsArgsExactly`, `ParseBuf.ReadTwice`);
- `BODY[1.]` is accepted and printed like `BODY[1]` (`SectionRoundTrip.ReparsedExactly`);
- SEARCH without a key aborts the server, and so do UNKEYWORD and a parenthesis still
  open behind a key at the end of the statement (`SearchGrammar.AbortsExactly`); KEYWORD
  with a name that is no system flag selects the recent messages
  (`SearchEval.KeywordExact`);
- SEARCH ON and SENTON also select the messages of the day after, a message without a date
  counts as sent on 1 January 1970 (`SearchWords.DatesExact`), and TEXT does not look at the
  last field of a header (`SearchWords.TextExact`, `SearchWords.NextDayFound`);
- the UID key is compared with the number of the message, and in a UID SEARCH a bare
  set with its UID (`SearchEval.SetsExact`, `SearchEval.UidMissed`), and a UID key `n:*`
  finds nothing (`MsgSet.StarUnbound`);
- a message number behind the mailbox stands for the last message (`MsgSet.SetExact`),
  and a range of UIDs can miss messages or fail when its ends are not in use
  (`MsgSet.UidItemExact`, `MsgSet.RangesLost`);
- a STORE of a message that arrived after the last synchronisation can be noted behind the
  end of the flag table (`Sync.FlagTable.SyncFlags`);
- a flag change by another program, or the other flags of a message fetched in the same
  session, can be covered up by a silent STORE or an EXPUNGE before they were reported,
  and messages removed by another program are not reported at all
  (`ClientView.StepExact`, `ClientView.LostChange`, `ClientView.OwnFetchLost`);
- the rollback of COPY sets a user flag, which flushing does not look at, so that copies
  stay behind (`Copy.RestoredExactly`), and an unreadable message in the middle of a
  range is left out of a COPY that answers OK (`Copy.SilentlySkipped`);
- a signal that lands in one of two gaps of enter and leave is never acted on
  (`Signals.FateOfSignal`);
- names that differ by delimiters at the end, or by variables that are not defined, share
  a path (`Namespace.NoCollision`, `Namespace.SameExpanded`, `Namespace.SharedPath`), and INBOX
  shares one with a name when the spool file lies in a directory of mailboxes
  (`NamespacePaths.InboxShared`).

## Model

| member | source | states |
|---|---|---|
| Common.DecRoundTrip | mailutils-3.14/imap4d/fetch.c:691-712 | the decimal digits printed for a number denote that number |
| Common.StrtoulDec | mailutils-3.14/imap4d/fetch.c:1424-1433 | what `%lu` prints, `strtoul` reads back in full, up to the first other character |
| Lexer.LexRender | mailutils-3.14/imap4d/io.c:513-590 | lexing any line of words, lone parentheses and quoted strings, with any blanks between them, gives its items back in order |
| Lexer.LexParenthesised | mailutils-3.14/imap4d/io.c:528-583 | a parenthesised word list lexes to the parentheses and the words |
| Lexer.QuoteRoundTrip | mailutils-3.14/imap4d/io.c:547-567 | quoting a text and lexing the line gives the text back if and only if it does not end in a backslash or nothing follows it on the line (section 9 of RFC 3501) |
| Unquote.Unquote | mailutils-3.14/imap4d/io.c:399-426 | the in-place loop with overlapping moves leaves the unescaped body, returns its length, and touches nothing else |
| Unquote.UnquoteEnds | mailutils-3.14/imap4d/io.c:402-423 | that loop ends if and only if every escaping backslash stands before a backslash or a quote, the closing quote included |
| TokBuf.Push | mailutils-3.14/imap4d/io.c:528-583 | recording a token keeps every earlier offset at a NUL-terminated copy of its argument |
| TokBuf.TokBuf.InsertNul | mailutils-3.14/imap4d/io.c:513-526 | a NUL at the offset, all bytes behind it one place up, nothing else moved |
| TokBuf.TokBuf.GetTok | mailutils-3.14/imap4d/io.c:528-583 | takes the first token of the rest of the line: the lexer says the same of it and of what is left |
| TokBuf.ClosingQuote | mailutils-3.14/imap4d/io.c:549-557 | the strchr loop stops at the quote the lexer takes for the closing one, also where that ends the line behind a backslash and the loop looks at the NUL above |
| TokBuf.TokBuf.GetQuoted | mailutils-3.14/imap4d/io.c:547-567 | a quoted token is closed, unescaped in place and terminated |
| TokBuf.TokBuf.EndAtom | mailutils-3.14/imap4d/io.c:569-582 | the gap opened behind a token terminates it, and the unread distance shrinks although the level grows |
| TokBuf.TokBuf.Tokenize | mailutils-3.14/imap4d/io.c:585-590 | afterwards the arguments are the earlier ones and then the lexed tokens, each recorded offset starting a NUL-terminated copy; the loop ends because level minus offset shrinks |
| TokBuf.TokBuf.FromString | mailutils-3.14/imap4d/io.c:726-737 | a buffer made from a string holds exactly its lexed tokens |
| ReadLine.ReadWire | mailutils-3.14/imap4d/io.c:673-724 | any number of line segments joined by literals reads as the tokens of all segments in order, each marker replaced by its literal, and the stream is left just behind the command (section 4.3 of RFC 3501) |
| ReadLine.LiteralKept | mailutils-3.14/imap4d/io.c:470-499 | a literal arrives as its octets with the CR of each CRLF dropped if and only if it is not wrapped in double quotes |
| ReadLine.InviteWire | mailutils-3.14/imap4d/io.c:686-701 | while it reads such a command the server invites exactly the literals whose markers ask for it |
| WireForms.MarkerForms | mailutils-3.14/imap4d/io.c:686-701 | `{n}` and `{n+}`, letter by letter, announce n octets, and only the first asks for an invitation |
| WireForms.WrappedRead | mailutils-3.14/imap4d/io.c:470-499 | a literal that is a quoted string is read as the text that was quoted |
| WireForms.CommandRead | mailutils-3.14/imap4d/io.c:673-724 | a command of any number of lines and literals, as a client writes it, is read as the words, the quoted texts and the octets of the literals in order, nothing behind it is touched, and as many literals are invited as the client waits with |
| WireForms.DecrlfCrlf | mailutils-3.14/imap4d/io.c:481-499 | text whose line ends were made CR LF comes back as it was |
| CommandReader.DecrlfInPlace | mailutils-3.14/imap4d/io.c:481-499 | the in-place loop drops exactly the CRs before LFs |
| CommandReader.GetLine | mailutils-3.14/imap4d/io.c:622-671 | one line, read in chunks of any length, is appended without its CRLF and trailing blanks |
| CommandReader.ReadLiteral | mailutils-3.14/imap4d/io.c:704-714 | short reads are continued until the announced length or the end of the stream |
| CommandReader.SpliceLiteral | mailutils-3.14/imap4d/io.c:686-719 | the marker argument becomes the literal, and the other arguments stay |
| CommandReader.Readline | mailutils-3.14/imap4d/io.c:673-724 | the loop over the buffer and the stream computes the command that the reading function defines, and sends the invitations it counts |
| ParseBuf.SplitShape | mailutils-3.14/imap4d/parsebuf.c:86-143 | the pieces of an argument are single delimiters and maximal delimiter-free runs, and concatenate to the argument |
| ParseBuf.SplitsArgsExactly | mailutils-3.14/imap4d/parsebuf.c:86-143 | the pieces that the buffer yields are those of its arguments, and no others, if and only if no empty argument has text behind its terminator |
| ParseBuf.ReadTwice | mailutils-3.14/imap4d/parsebuf.c:106-138 | a line on which an argument behind an empty one is returned twice |
| ParseBuf.ParseBuf.Peek | mailutils-3.14/imap4d/parsebuf.c:49-84 | returns what the next call of next returns, empty arguments included, and changes no byte |
| ParseBuf.ParseBuf.Next | mailutils-3.14/imap4d/parsebuf.c:86-143 | returns the next piece; at most one byte of the buffer differs from the original, its value saved, and none once the pieces run out |
| Section.ParsedShape | mailutils-3.14/imap4d/fetch.c:1373-1515 | whatever the section parser accepts is a standard section or the dangling form `BODY[n.]` |
| SectionRoundTrip.ParsePieces | mailutils-3.14/imap4d/fetch.c:1350-1515 | parsing inverts the list of pieces of a section and consumes exactly them |
| SectionRoundTrip.PrintedPieces | mailutils-3.14/imap4d/fetch.c:691-712 | lexing and splitting the printed section text, with delimiters and runs behind it, gives its pieces and those |
| SectionRoundTrip.SectionRoundTrip | mailutils-3.14/imap4d/fetch.c:1484-1515 | for any part numbers, any section kind and any plain header names, the text that heads the response parses to the section it was printed from (section 6.4.5 of RFC 3501) |
| SectionRoundTrip.ReparsedExactly | mailutils-3.14/imap4d/fetch.c:691-712 | of all sections the parser returns with plain header names, exactly the dangling form is not read back |
| SectionParser.Store | mailutils-3.14/imap4d/fetch.c:1450-1466 | the doubling array keeps what it holds and gains the new number |
| SectionParser.ParseSectionPart | mailutils-3.14/imap4d/fetch.c:1439-1478 | the loop stores the part numbers that the parsing function defines |
| SectionParser.ParseHeaders | mailutils-3.14/imap4d/fetch.c:1350-1364 | the header names up to the closing parenthesis |
| SectionParser.ParseSectionInto | mailutils-3.14/imap4d/fetch.c:1484-1515 | filling the closure field by field gives the parsed section, the same error texts and the same pieces left over |
| SectionParser.ParseSubstringInto | mailutils-3.14/imap4d/fetch.c:1517-1534 | offset and length of `<n.m>`, or the same error |
| SectionParser.ParseBodyArgsInto | mailutils-3.14/imap4d/fetch.c:1536-1549 | section and range together |
| FetchRequest.RequestRoundTrip | mailutils-3.14/imap4d/fetch.c:1517-1549 | for any standard section and any range, lexing, splitting and parsing the request gives section, offset and length back and leaves nothing over (section 6.4.5 of RFC 3501) |
| FetchRequest.PartFetched | mailutils-3.14/imap4d/fetch.c:1517-1549 | from end to end: the client that asks for a part of a section reads, from what the server sends for the request it understood, that section, that offset and exactly that part of the text in CRLF form |
| WireForms.SectionForms | mailutils-3.14/imap4d/fetch.c:691-712 | the seven kinds of sections of section 6.4.5 of RFC 3501, as they are written, for any part numbers |
| WireForms.SectionsRead | mailutils-3.14/imap4d/fetch.c:1373-1515 | reading any of those texts gives the handler, the part numbers and the names it is about |
| WireForms.PlainNameExactly | mailutils-3.14/imap4d/fetch.c:1339-1364 | the header names that stay in one piece, by their letters |
| WireForms.SectionErrors | mailutils-3.14/imap4d/fetch.c:1373-1515 | what is said of sections that break off or go wrong |
| WireForms.FieldErrors | mailutils-3.14/imap4d/fetch.c:1350-1415 | the same for lists of header names |
| WireForms.RangeErrors | mailutils-3.14/imap4d/fetch.c:1517-1534 | the same for ranges |
| WireForms.CrlfForm | mailutils-3.14/libmailutils/filter/crlfflt.c:46-115 | every line end becomes CR LF, and the rest of a text stays |
| WireForms.ResponseForms | mailutils-3.14/imap4d/fetch.c:714-802 | a whole text, and a part of it with its offset, as they are sent |
| FetchIo.CrlfLength | mailutils-3.14/imap4d/fetch.c:935-939 | size plus number of lines is the length of the CRLF form |
| FetchIo.CrlfEncoder | mailutils-3.14/libmailutils/filter/crlfflt.c:46-115 | for buffers of any size the output is the CRLF form of the input taken, and input is always taken when there is room for it |
| FetchIo.CountNl | mailutils-3.14/imap4d/fetch.c:1098-1105 | the strchr loop counts the newlines |
| FetchIo.StringRead | mailutils-3.14/imap4d/fetch.c:786-797 | a client that reads the announced length and so many bytes gets exactly the bytes sent, whatever they are and whatever follows (section 4.3 of RFC 3501) |
| FetchIo.ResponseRead | mailutils-3.14/imap4d/fetch.c:714-802 | from the response to a partial fetch the client reads the offset it asked for and that part of the CRLF form |
| FetchIo.StepsJoin | mailutils-3.14/imap4d/fetch.c:714-802 | a client that fetches a text in steps of any length and joins what it reads ends with the whole CRLF form |
| FetchIo.Fill | mailutils-3.14/imap4d/fetch.c:771-776 | under any pattern of short reads the buffer holds the requested slice |
| FetchIo.FetchIo | mailutils-3.14/imap4d/fetch.c:714-802 | what is sent is the response that the client-side theorems speak of; nothing is sent when a seek, or the read of a part, fails; a read that fails while the whole text is copied leaves a prefix of it behind the full length |
| HeaderFields.SentExactly | mailutils-3.14/imap4d/fetch.c:1156-1168 | HEADER.FIELDS sends the fields whose names were requested, in any mix of cases, and HEADER.FIELDS.NOT the others (section 6.4.5 of RFC 3501) |
| HeaderFields.SentInOrder | mailutils-3.14/imap4d/fetch.c:1149-1168 | in the order of the header and as often as they occur |
| HeaderFields.TextExactly | mailutils-3.14/imap4d/fetch.c:1149-1174 | what is sent is one line for each of those fields, under the spelling of the first request that fits for HEADER.FIELDS and under its own for HEADER.FIELDS.NOT, and an empty line |
| HeaderFields.SubjectOnly | mailutils-3.14/imap4d/fetch.c:1149-1174 | both answers for a header with two fields |
| HeaderFields.Collect | mailutils-3.14/imap4d/fetch.c:1149-1174 | the collected text is the lines of the fields that `SentExactly` and `TextExactly` speak of and an empty line, and the line count kept beside it is right up to newlines in names |
| HeaderFields.FieldsLength | mailutils-3.14/imap4d/fetch.c:1163-1177 | the announced length of HEADER.FIELDS is the length of its CRLF form if and only if no name sent holds a newline |
| HeaderFields.FieldsPartition | mailutils-3.14/imap4d/fetch.c:1156-1161 | HEADER.FIELDS and HEADER.FIELDS.NOT with the same names split the header fields between them |
| HeaderFields.SendHeaderFields | mailutils-3.14/imap4d/fetch.c:1107-1182 | the response is the collected text, or the part of it asked for, with its length; after a failed seek or read it is nothing, or a prefix of the whole text |
| Search.Recognised | mailutils-3.14/imap4d/search.c:498-580 | each key of the grammar and of both tables is recognised by its name in the table, in any mix of cases, and as no other key |
| SearchWords.ReservedWords | mailutils-3.14/imap4d/search.c:498-568 | ALL, NOT and OR, spelled out, are these keys, and no other word is |
| SearchWords.TextWords | mailutils-3.14/imap4d/search.c:149-169 | so are the eight keys that look for text |
| SearchWords.DateWords | mailutils-3.14/imap4d/search.c:149-169 | the six keys that ask for dates |
| SearchWords.OtherWords | mailutils-3.14/imap4d/search.c:149-169 | LARGER, SMALLER, UID and KEYWORD |
| SearchWords.FlagWords | mailutils-3.14/imap4d/search.c:182-199 | the eight flag keys |
| SearchWords.NegatedWords | mailutils-3.14/imap4d/search.c:182-199 | and the six negated ones |
| SearchWords.SizeKeys | mailutils-3.14/imap4d/search.c:1178-1276 | the statement LARGER n selects the messages of more than n octets, and SMALLER n those of fewer, from the digits the client writes |
| SearchWords.FlagKeys | mailutils-3.14/imap4d/search.c:182-199 | the statement of one flag key selects by its own attribute bit |
| SearchWords.NegatedKeys | mailutils-3.14/imap4d/search.c:182-199 | and that of a negated one, or OLD, by the same bit |
| SearchWords.TextKeys | mailutils-3.14/imap4d/search.c:1094-1302 | each key that looks for text asks the field it is named after, the sender and From, all fields but the last and the body, or the body |
| SearchWords.NamedKeys | mailutils-3.14/imap4d/search.c:1155-1175 | HEADER asks the field it is given, KEYWORD the flag, UID the set |
| SearchWords.TextExact | mailutils-3.14/imap4d/search.c:880-924 | TEXT finds what it should if and only if the text is not in the last field of the header alone |
| SearchWords.DateKeys | mailutils-3.14/imap4d/search.c:1102-1266 | what each date key selects, from its word: BEFORE and SINCE what they should, ON and SENTON the day after besides, and the SENT keys count a message without a date as of 1 January 1970 |
| SearchWords.DatesExact | mailutils-3.14/imap4d/search.c:1102-1266 | a date test is right for a message if and only if the message is not of the day after, and has a date unless 1970 is on the right side (section 6.4.4 of RFC 3501) |
| SearchWords.NextDayFound | mailutils-3.14/imap4d/search.c:1189-1207 | SEARCH ON finds a message of the next day, and SEARCH TEXT misses a text in the only field of a header |
| SearchWords.Combined | mailutils-3.14/imap4d/search.c:493-568 | ALL selects everything; NOT, OR and parentheses combine what the keys select |
| SearchWords.CharsetStatement | mailutils-3.14/imap4d/search.c:286-317 | CHARSET with US-ASCII or a character set of the library changes nothing, with any other the answer is NO |
| SearchWords.MissingKeys | mailutils-3.14/imap4d/search.c:517-568 | what is said of NOT and OR without their keys |
| SearchWords.BadArguments | mailutils-3.14/imap4d/search.c:673-737 | of missing and malformed arguments |
| SearchWords.BadStructure | mailutils-3.14/imap4d/search.c:319-333 | of unknown words and of parentheses that do not fit |
| Search.MacroTokensRank | mailutils-3.14/imap4d/search.c:182-199 | an expansion uses only macros of lower rank; with the number of outer tokens left this makes parsing end |
| SearchRoundTrip.ParseQuery | mailutils-3.14/imap4d/search.c:493-740 | any query printed in prefix form, with its keys in any mix of cases, parses to its tree and consumes exactly its own tokens, whatever follows |
| SearchRoundTrip.ParseQueries | mailutils-3.14/imap4d/search.c:469-491 | a bare list of keys parses to the left-nested AND of their trees |
| SearchRoundTrip.CompileKeys | mailutils-3.14/imap4d/search.c:319-333 | a SEARCH statement of good keys compiles to that AND (section 6.4.4 of RFC 3501) |
| SearchRoundTrip.MacroLexes | mailutils-3.14/imap4d/search.c:182-199 | the text of each macro tokenizes to the expansion the parser works on |
| SearchRoundTrip.MacroAtKey | mailutils-3.14/imap4d/search.c:570-606 | at key position a macro parses to the same tree as its parenthesised expansion, whatever follows |
| SearchRoundTrip.MacrosAnywhere | mailutils-3.14/imap4d/search.c:570-606 | in any query, replacing every macro by its expansion does not change the tree |
| SearchRoundTrip.MacroTrees | mailutils-3.14/imap4d/search.c:182-199 | each UNx key is the negation of x, OLD is not RECENT, NEW is RECENT and UNSEEN |
| SearchRoundTrip.UnkeywordAborts | mailutils-3.14/imap4d/search.c:592-599 | UNKEYWORD reaches the abort, whatever follows it |
| SearchGrammar.Read | mailutils-3.14/imap4d/search.c:493-740 | every key that parses is a query of the grammar in front of the tokens left over |
| SearchGrammar.CompilesExactly | mailutils-3.14/imap4d/search.c:469-740 | a statement compiles if and only if it is a list of queries of the grammar, and then to the tree of any such reading |
| SearchGrammar.KeysAbortExactly | mailutils-3.14/imap4d/search.c:493-606 | the parser aborts on the keys if and only if they lead it, over queries of the grammar only, to UNKEYWORD where a key is due or to the end of the tokens behind a parenthesised key |
| SearchGrammar.AbortsExactly | mailutils-3.14/imap4d/search.c:286-333 | the server aborts on a statement if and only if the statement is empty or the word CHARSET alone, or its keys lead the parser to such a place |
| SearchGrammar.AcceptedExactly | mailutils-3.14/imap4d/search.c:286-333 | a statement is carried out if and only if it has a key, its character set is known and its keys are queries of the grammar |
| SearchGrammar.EmptySearches | mailutils-3.14/imap4d/search.c:286-317 | the three statements without a key |
| SearchTrees.KeyWellFormed | mailutils-3.14/imap4d/search.c:493-740 | every tree the parser returns has calls with as many arguments, of the types, as their table entry says |
| SearchTrees.TreeRoundTrip | mailutils-3.14/imap4d/search.c:469-740 | printing any such tree with parenthesised ANDs and parsing it gives the same tree and consumes exactly its tokens |
| SearchTrees.ParsedExactly | mailutils-3.14/imap4d/search.c:469-740 | a tree can come out of the parser if and only if it is well formed |
| SearchEval.EvalMeaning | mailutils-3.14/imap4d/search.c:743-802 | every such tree evaluates to a number, and the short-circuit result is nonzero if and only if the boolean meaning holds |
| SearchEval.NeverAborts | mailutils-3.14/imap4d/search.c:804-818 | whatever compiles evaluates to a number, so the internal-error abort is unreachable |
| SearchEval.MacroMeaning | mailutils-3.14/imap4d/search.c:182-199 | what each flag key selects is what section 6.4.4 of RFC 3501 says of it |
| SearchEval.BuildMeaning | mailutils-3.14/imap4d/search.c:743-802 | the tree of a query selects the messages that match the query, once UID sets are asked for the message number and, in a UID SEARCH, bare sets for the UID |
| SearchEval.SearchSelects | mailutils-3.14/imap4d/search.c:346-370 | a SEARCH command selects exactly the messages that match all its keys, read in that way; what each key, by its word, matches is said by `SearchWords` |
| SearchEval.SetsExact | mailutils-3.14/imap4d/search.c:1303-1314 | for a message all queries mean what they would if UID sets were asked for the UID and bare sets for the number, if and only if its UID equals its number |
| SearchEval.OthersTrue | mailutils-3.14/imap4d/search.c:1303-1314 | a query without the set that is asked for the wrong number means the same either way, whatever the UID |
| SearchEval.UidMissed | mailutils-3.14/imap4d/search.c:1303-1314 | SEARCH UID 2 does not find message 1 with UID 2 |
| MsgSet.ParseImap | mailutils-3.14/libmailutils/msgset/parse.c:115-172 | the loop over the text reads the ranges that the reading function defines, with the same refusals |
| MsgSet.SetRead | mailutils-3.14/libmailutils/msgset/parse.c:34-172 | the text of any set of section 9 of RFC 3501 is read item by item, each drawn into the mailbox |
| MsgSet.NumbersExact | mailutils-3.14/libmailutils/msgset/parse.c:34-106 | a set of numbers is read as it is meant, and the last message besides if an item lies behind the mailbox |
| MsgSet.SetExact | mailutils-3.14/libmailutils/msgset/parse.c:34-106 | it is read as it is meant for all messages if and only if no item lies behind the mailbox or it holds the last message anyway |
| MsgSet.LastForNine | mailutils-3.14/libmailutils/msgset/parse.c:48-51 | `9` in a mailbox of three messages is the third |
| MsgSet.UnboundExact | mailutils-3.14/libmailutils/msgset/parse.c:34-106 | a set of the UID key without `*` is read as it is meant |
| MsgSet.StarUnbound | mailutils-3.14/libmailutils/msgset/parse.c:65-106 | a UID key `n:*` holds nothing, and `*` and `*:n` are refused |
| MsgSet.TranslatePair | mailutils-3.14/libmailutils/msgset/trans.c:27-91 | the two searching loops translate a range of UIDs as the function defines it |
| MsgSet.TranslateExact | mailutils-3.14/libmailutils/msgset/trans.c:27-91 | a range of UIDs selects the messages it should if and only if it finds its first UID in use, and its last one or another behind the first; or, where the first one had to be searched for, behind the next to it |
| MsgSet.RangesLost | mailutils-3.14/libmailutils/msgset/trans.c:49-85 | a range that misses a message, and one that fails although a UID in it is in use |
| MsgSet.UidItemExact | mailutils-3.14/libmailutils/msgset/parse.c:34-151 | an item of a set of UIDs selects the messages it should if and only if it does not lie outside the UIDs in use and its range is translated rightly (section 6.4.8 of RFC 3501) |
| SearchSets.MailboxSane | mailutils-3.14/libmailutils/msgset/parse.c:34-172 | the sets of a mailbox meet what the theorems on the parser ask of the library |
| SearchSets.MailboxSingles | mailutils-3.14/libmailutils/msgset/parse.c:34-106 | a single UID denotes itself, as the theorems on the UID key ask |
| SearchSets.BareSetSelects | mailutils-3.14/imap4d/search.c:1086-1092 | SEARCH with a bare set selects the messages it denotes, and the last one besides if an item lies behind the mailbox (section 6.4.4 of RFC 3501) |
| SearchSets.UidKeySelects | mailutils-3.14/imap4d/search.c:1303-1314 | SEARCH with the UID key selects the messages whose numbers the set denotes |
| SearchEval.KeywordExact | mailutils-3.14/imap4d/util.c:168-179 | the flag test is right if and only if the name is a system flag; any other keyword selects the recent messages |
| SearchEval.SelectedAll | mailutils-3.14/imap4d/search.c:346-370 | the reported numbers are those of all matching messages, once each, ascending |
| SearchEval.SearchRun | mailutils-3.14/imap4d/search.c:804-818 | running a compiled query on a message tells its meaning |
| SearchEval.DoSearch | mailutils-3.14/imap4d/search.c:346-370 | the loop reports the numbers, or the UIDs, of exactly the matching messages in order |
| SearchParser.GetArg | mailutils-3.14/imap4d/io.c:462-468 | the C string at the recorded offset is the argument |
| SearchParser.LookupCond | mailutils-3.14/imap4d/search.c:615-618 | the table loop finds the first condition whose name fits |
| SearchParser.LookupMacro | mailutils-3.14/imap4d/search.c:578-581 | the table loop finds the first macro whose name fits |
| SearchParser.SearchBuf.ParseSearchKeyList | mailutils-3.14/imap4d/search.c:469-491 | the loop over current token and left argument computes the list parser |
| SearchParser.SearchBuf.ParseSearchKey | mailutils-3.14/imap4d/search.c:493-568 | node, tokens left over and error message are those of the parsing function |
| SearchParser.SearchBuf.ParseEquivKey | mailutils-3.14/imap4d/search.c:570-606 | swapping in a token buffer made from the expansion and swapping the outer one back gives the tree of the macro and goes on behind it |
| SearchParser.SearchBuf.ParseSimpleKey | mailutils-3.14/imap4d/search.c:608-740 | the condition with its arguments, or the message set |
| SearchParser.SearchBuf.ParseArguments | mailutils-3.14/imap4d/search.c:673-737 | the loop over the type letters collects the arguments, with the same errors |
| SearchParser.ImapSearch0 | mailutils-3.14/imap4d/search.c:274-370 | from the token buffer to the answer: the text of the completion, and exactly the numbers or UIDs of the messages that the compiled tree selects |
| SearchAnswers.KeysOf | mailutils-3.14/imap4d/search.c:274-292 | the keys stand behind SEARCH, and in a UID SEARCH behind UID and SEARCH |
| SearchAnswers.NumbersListed | mailutils-3.14/imap4d/search.c:346-370 | from the words of the keys to the response: it lists exactly the numbers of the messages they select, ascending |
| SearchAnswers.UidsListed | mailutils-3.14/imap4d/search.c:346-370 | and the response to a UID SEARCH exactly their UIDs |
| SearchEval.ScanHeaderAll | mailutils-3.14/imap4d/search.c:880-924 | the loop over the fields leaves out the last one |
| Expunge.ClientFollows | mailutils-3.14/imap4d/sync.c:157-169 | a client that applies the reported numbers one by one always removes an entry it has and ends with exactly the surviving messages in order (section 7.4.1 of RFC 3501) |
| Expunge.ClientFollowsExactly | mailutils-3.14/imap4d/sync.c:157-169 | a client that knows the first messages only can follow if and only if no other message is reported |
| Expunge.ReportsSkip | mailutils-3.14/libproto/mbox/mboxrd.c:1503-1531 | starting the scan at the first modified message reports the same numbers |
| Sync.ChangesExactly | mailutils-3.14/imap4d/sync.c:96-105 | the FETCH lines are for exactly the old positions whose flags differ, with the new flags |
| Sync.FlagTable.Realloc | mailutils-3.14/imap4d/sync.c:28-39 | growing the table keeps its entries |
| Sync.FlagTable.Reread | mailutils-3.14/imap4d/sync.c:48-66 | the table is valid and equals the flags of the mailbox |
| Sync.FlagTable.Notify | mailutils-3.14/imap4d/sync.c:68-114 | afterwards the table is valid, as long as the mailbox and equal to its flags; the lines sent are the changes, if it was valid before, and the numbers of all and of recent messages |
| Sync.FlagTable.SyncFlags | mailutils-3.14/imap4d/sync.c:124-136 | the entry of one message is brought up to date, the others stay; a message beyond the allocated table is written behind its end |
| Sync.FlagTable.DoStore | mailutils-3.14/imap4d/store.c:93-136 | flags, table and acknowledgement of one stored message; it never writes behind the table for a message that the table has |
| Sync.FlagTable.Sync | mailutils-3.14/imap4d/sync.c:191-228 | when the table is notified, dropped, kept, or read anew behind an alert; what it then holds and what was sent |
| Sync.FlagTable.ExpungeMailbox | mailutils-3.14/libproto/mbox/mboxrd.c:1503-1531 | the mailbox keeps its survivors and reports the deleted messages, unless silenced |
| Sync.FlagTable.ExpungeCommand | mailutils-3.14/imap4d/expunge.c:32-47 | expunge, invalidation and synchronisation together |
| Sync.Mailbox.MessagesRecent | mailutils-3.14/libproto/mbox/mboxrd.c:899-918 | the loop counts the recent messages |
| SearchSync.FlagsFound | mailutils-3.14/imap4d/util.c:168-179 | the tests for deleted, recent and read messages are those of the keys DELETED, RECENT and SEEN |
| SearchSync.ExpungedFound | mailutils-3.14/imap4d/expunge.c:32-47 | EXPUNGE leaves exactly the messages that SEARCH DELETED does not find (section 6.4.3 of RFC 3501) |
| SearchSync.ExpungedFlags | mailutils-3.14/imap4d/expunge.c:32-47 | and the table holds their flags |
| SearchSync.RecentFound | mailutils-3.14/imap4d/sync.c:73-74 | the number in the RECENT response is that of the messages SEARCH RECENT lists |
| ClientView.TellInforms | mailutils-3.14/imap4d/sync.c:68-114 | after a notification the client knows the present flags of every message it knew and of every one that changed |
| ClientView.StoreThenTell | mailutils-3.14/imap4d/store.c:131-135 | after a STORE the next notification is what it would have been, without the message stored |
| ClientView.ExpungeExact | mailutils-3.14/imap4d/expunge.c:32-47 | an expunge keeps the client in step if and only if it covers up no change to a surviving message and names none the client was not told of |
| ClientView.ReadExact | mailutils-3.14/imap4d/fetch.c:565-579 | a FETCH that marks a message as read keeps the client in step if and only if the message was noted with that flag alone |
| ClientView.ReadThenTell | mailutils-3.14/imap4d/fetch.c:565-579 | the next notification puts the client right again if and only if the table has no such flags yet, or these alone |
| ClientView.ReopenExact | mailutils-3.14/imap4d/sync.c:201-217 | a mailbox opened again after another program removed messages keeps the client in step if and only if it is no shorter and all the client knows is still true, as no removal is reported |
| ClientView.StoreExact | mailutils-3.14/imap4d/store.c:93-136 | a store keeps the client in step if and only if a silent one covers up no change of the same message |
| ClientView.StepExact | mailutils-3.14/imap4d/sync.c:68-228 | the exact condition for every kind of step |
| ClientView.RunInStep | mailutils-3.14/imap4d/sync.c:191-228 | along any run of such steps all the client knows of the flags is what the server noted, and right after a notification that is the truth |
| ClientServer.Perform | mailutils-3.14/imap4d/sync.c:68-228 | each kind of step is what the methods of the flag table do to table and mailbox, and what a client knows that hears what they send |
| ClientServer.PerformAll | mailutils-3.14/imap4d/sync.c:191-228 | along a whole run of clean steps on the table and the mailbox, a client that hears what is sent stays in step, unless a store was written behind the table |
| ClientView.LostChange | mailutils-3.14/imap4d/sync.c:77-80 | a run in which a flag change by another program is noted by the server and never reported |
| ClientView.OwnFetchLost | mailutils-3.14/imap4d/fetch.c:565-579 | a run in which the same session loses the other flags of a message it fetched |
| Session.DoKeeps | mailutils-3.14/imap4d/util.c:19-57 | no command breaks the session invariant, and none that was refused or failed raises the state |
| Session.SelectKeeps | mailutils-3.14/imap4d/select.c:34-118 | the implicit close, the reopening and the explicit state change keep the invariant |
| Session.CloseKeeps | mailutils-3.14/imap4d/close.c:19-60 | a close, refused or not, keeps the invariant |
| Session.EveryRun | mailutils-3.14/imap4d/commands.c:19-51 | over all runs: selected implies an open mailbox, authenticated implies that the session was set up (by whom is said by `SessionRules.AuthenticatedExactly`), a valid flag table is that of the open mailbox, the three TLS and LOGIN capabilities are advertised exactly while they apply, and STARTTLS succeeds at most once (section 3 of RFC 3501) |
| Session.EveryCommand | mailutils-3.14/imap4d/io.c:291-324 | in every state a run can reach, refusals do not raise the state and commands that use the mailbox find one; which commands are refused is said by `SessionRules.MisplacedAnywhere` |
| Session.RequiredTls | mailutils-3.14/imap4d/starttls.c:33-70 | with TLS required and no preauthentication, whoever leaves the non-authenticated state negotiated TLS first |
| Session.DisabledLogin | mailutils-3.14/imap4d/login.c:38-39 | with LOGIN disabled, a session without preauthentication and AUTHENTICATE stays non-authenticated until TLS is negotiated, which enables LOGIN again |
| Session.AcceptedIfAdvertised | mailutils-3.14/imap4d/starttls.c:33-58 | STARTTLS is accepted if and only if it is advertised |
| Session.OpenButAuthenticated | mailutils-3.14/imap4d/close.c:25-26 | a CLOSE with an argument leaves the mailbox open behind the authenticated state |
| SessionRules.NamesExactly | mailutils-3.14/imap4d/util.c:58-72 | the second word of a line names a command if and only if it is a spelling of a name in the table |
| SessionRules.AnyStateWords | mailutils-3.14/imap4d/commands.c:19-51 | the words of sections 6.1 and 6.2 of RFC 3501 and the commands they are taken for |
| SessionRules.MailboxWords | mailutils-3.14/imap4d/commands.c:19-51 | those of section 6.3, NAMESPACE and ID |
| SessionRules.MessageWords | mailutils-3.14/imap4d/commands.c:19-51 | those of section 6.4, UNSELECT and IDLE |
| SessionRules.AllowedExactly | mailutils-3.14/imap4d/commands.c:19-51 | the commands allowed in each of the three states are those that sections 6.1 to 6.4 of RFC 3501 give it, listed |
| SessionRules.WrongState | mailutils-3.14/imap4d/util.c:48-55 | any other line is answered BAD, and state, mailbox and record stay as they are |
| SessionRules.MisplacedAnywhere | mailutils-3.14/imap4d/util.c:48-55 | so it is in every state a run can reach |
| SessionRules.BeforeAnybody | mailutils-3.14/imap4d/util.c:48-55 | over all runs: while nobody is authenticated, every line but those of CAPABILITY, NOOP, LOGOUT, STARTTLS, AUTHENTICATE and LOGIN is answered BAD and changes nothing |
| SessionRules.LoginExactly | mailutils-3.14/imap4d/login.c:31-70 | LOGIN is answered OK if and only if it is neither disabled nor barred by TLS and arguments, user, password and setup are good; OK leads to the authenticated state, and after any other answer nothing happened |
| SessionRules.AuthenticateExactly | mailutils-3.14/imap4d/authenticate.c:92-146 | AUTHENTICATE is answered OK if and only if TLS does not bar it, its mechanism succeeded, by itself or by its response, and named a user whose session can be set up; after any other answer nothing happened |
| SessionRules.StartTlsExactly | mailutils-3.14/imap4d/starttls.c:33-70 | STARTTLS is answered OK if and only if it is advertised and comes alone; the session then goes on only with encryption on, LOGIN enabled and nothing of TLS advertised any more |
| SessionRules.SelectExactly | mailutils-3.14/imap4d/select.c:34-118 | SELECT and EXAMINE are answered OK if and only if the mailbox is found, opened and read, and then it is the one that is open; otherwise none is selected |
| SessionRules.CloseExactly | mailutils-3.14/imap4d/close.c:19-60 | CLOSE and UNSELECT always end the selected state, and close the mailbox unless they had arguments |
| SessionRules.ExpungeExactly | mailutils-3.14/imap4d/expunge.c:32-47 | EXPUNGE stays in the selected state with the table read anew |
| SessionRules.LogoutExactly | mailutils-3.14/imap4d/logout.c:30-38 | LOGOUT ends the session in every state |
| SessionRules.OtherExactly | mailutils-3.14/imap4d/io.c:291-324 | the other commands leave the session as it is |
| SessionRules.Diagram | mailutils-3.14/imap4d/io.c:291-324 | every command moves along the state diagram of section 3.4 of RFC 3501, and nothing but a LOGIN or AUTHENTICATE answered OK leads out of the non-authenticated state, or anything back into it |
| SessionRules.AuthenticatedExactly | mailutils-3.14/imap4d/login.c:31-70 | over all runs: a session is authenticated if and only if it was preauthenticated, or one of its inputs was a LOGIN with a known user and the right password while that was enabled, or an AUTHENTICATE whose mechanism succeeded, with TLS not outstanding |
| SessionRules.NobodyElse | mailutils-3.14/imap4d/authenticate.c:120-146 | over all runs without a right password and without a mechanism that succeeds, nobody is authenticated |
| SessionRules.FirstLogin | mailutils-3.14/imap4d/login.c:56-70 | the first command of a session, with the right and with the wrong password |
| SessionRules.AlwaysListed | mailutils-3.14/imap4d/capability.c:20-77 | over all runs: the protocol and its extensions are listed, once each |
| SessionRules.ListedWhileTrue | mailutils-3.14/imap4d/capability.c:20-77 | over all runs: STARTTLS, XTLSREQUIRED and LOGINDISABLED are listed, in these words, while they apply |
| SessionServer.GetCommand | mailutils-3.14/imap4d/util.c:58-72 | the loop over the table finds the command of that name |
| SessionServer.Server.DoArguments | mailutils-3.14/imap4d/util.c:19-57 | a command from the words of its line |
| SessionServer.CapabilityRemove | mailutils-3.14/imap4d/capability.c:40-44 | the first occurrence goes, the others stay |
| SessionServer.Server.Sync | mailutils-3.14/imap4d/sync.c:191-228 | whose flags the table holds afterwards |
| SessionServer.Server.DoCommand | mailutils-3.14/imap4d/util.c:19-57 | every command keeps the invariant of the session variables, whatever its outcome, none that was refused or failed raises the state, and what it does is what the rules of `SessionRules` are about |
| SessionServer.Server.Serve | mailutils-3.14/imap4d/imap4d.c:811-819 | the loop of turns is the run that the theorems on runs speak of, and all they say of it holds of the variables |
| SessionServer.MainLoop | mailutils-3.14/imap4d/imap4d.c:764-819 | a session from its start: a selected state has an open mailbox, the session is authenticated if and only if somebody was let in, the capabilities are right, and with TLS required TLS came first |
| Copy.OkExactly | mailutils-3.14/imap4d/copy.c:104-135 | COPY answers OK if and only if the quota allows it, every readable message was sized and appended, and no range ends in an unreadable message |
| Copy.CopiedAll | mailutils-3.14/imap4d/copy.c:104-135 | a COPY that answers OK leaves the old messages and behind them a copy of every readable message of the set, in order |
| Copy.CopiesExactly | mailutils-3.14/imap4d/copy.c:66-102 | each copy has the text of the message it was made from, a UID of its own in ascending order, and no flags |
| Copy.FoundExactly | mailutils-3.14/libmailutils/msgset/foreachmsg.c:61-76 | the messages of a range that exist, ascending |
| Copy.AppendedExactly | mailutils-3.14/imap4d/copy.c:104-135 | what an attempt appends: nothing unless all messages can be sized and the quota allows it, and else the readable ones that do not fail, in order, up to the first range that ends badly |
| Copy.FailedExactly | mailutils-3.14/imap4d/copy.c:137-200 | a COPY that is not answered OK is answered NO; when it ends the session; and when it leaves the destination alone |
| Copy.SilentlySkipped | mailutils-3.14/libmailutils/msgset/foreachmsg.c:61-76 | an unreadable message inside a range is skipped and the COPY still answers OK |
| Copy.FailedCopy | mailutils-3.14/imap4d/copy.c:153-196 | a failed COPY leaves the old messages that were not deleted and all copies that had been made |
| Copy.RestoredExactly | mailutils-3.14/imap4d/copy.c:153-196 | a failed COPY restores the destination if and only if nothing had been appended and no old message was marked as deleted (section 6.4.7 of RFC 3501 asks for it always) |
| Copy.RollbackAsMeant | mailutils-3.14/imap4d/copy.c:172-182 | had the flag been one that flushing looks at, exactly the old messages not deleted would be left |
| Copy.CopyLeftBehind | mailutils-3.14/imap4d/copy.c:172-196 | an input on which the rollback leaves a copy behind |
| Copy.CopyEnv.CallAction | mailutils-3.14/libmailutils/msgset/foreachmsg.c:34-59 | one message is sized or appended; a missing one is passed over |
| Copy.CopyEnv.ProcRange | mailutils-3.14/libmailutils/msgset/foreachmsg.c:61-76 | the forward loop over a range does not stop at a failure, and reports the last status |
| Copy.CopyEnv.ForEach | mailutils-3.14/libmailutils/msgset/foreachmsg.c:78-105 | the ranges are walked until one ends in a failure |
| Copy.CopyEnv.TryCopy | mailutils-3.14/imap4d/copy.c:104-135 | the answer, and what was appended |
| Copy.CopyEnv.Mark | mailutils-3.14/imap4d/copy.c:172-182 | exactly the messages behind the old ones are marked |
| Copy.CopyEnv.SafeCopy | mailutils-3.14/imap4d/copy.c:137-200 | the destination, the answer and whether the session ends, for every combination of failures |
| Signals.RunKeeps | mailutils-3.14/imap4d/signal.c:19-47 | the invariant of the two flags over all interleavings of enter, leave and the handler, one statement at a time |
| Signals.JumpsSafe | mailutils-3.14/imap4d/signal.c:19-47 | no jump between enter and the test of leave, and at most one jump in a run, the critical section of the farewell included |
| Signals.FateOfSignal | mailutils-3.14/imap4d/signal.c:23-47 | where a signal lands decides: at once outside, at the coming test of leave when it landed behind the test of enter and before that test, never in the two gaps |
| Signals.GapsExist | mailutils-3.14/imap4d/signal.c:23-37 | both gaps can be hit |
| Signals.Child.ChildSignal | mailutils-3.14/imap4d/signal.c:39-47 | the handler acts once, and defers inside a critical section |
| Signals.Child.Statement | mailutils-3.14/imap4d/signal.c:23-37 | each statement of enter and leave is a step of the model |
| Namespace.Init | mailutils-3.14/imap4d/namespace.c:67-148 | a configuration is refused if and only if a prefix appears twice or the empty one is not personal; otherwise the table is sorted by falling length, has no duplicates, and holds the configured prefixes and the default one if needed |
| Namespace.Insert | mailutils-3.14/imap4d/namespace.c:50-56 | the order by length is kept and nothing is lost |
| Namespace.TrimDelim | mailutils-3.14/imap4d/namespace.c:58-65 | only and all slashes at the end go |
| Namespace.LongestPrefix | mailutils-3.14/imap4d/namespace.c:201-238 | every name has a prefix, and the chosen one is the only longest configured prefix of the name |
| Namespace.TranslateDelim | mailutils-3.14/imap4d/namespace.c:150-156 | the do-while loop copies the string with its NUL, delimiters replaced |
| Namespace.FillTemplate | mailutils-3.14/imap4d/namespace.c:177-195 | the path fits the computed buffer and is directory, slash and translated rest |
| Namespace.PrefixTranslateName | mailutils-3.14/imap4d/namespace.c:158-199 | the path of a name under one prefix, or none; what it is for INBOX and for other names is said by `NamespacePaths` |
| Namespace.TranslateName | mailutils-3.14/imap4d/namespace.c:201-238 | the path under the first prefix in the table that fits |
| Namespace.SamePath | mailutils-3.14/imap4d/namespace.c:158-199 | two names share a path if and only if they are equal or one is the other behind the delimiter |
| PathVariables.NodeExpand | mailutils-3.14/libmailutils/wordsplit/wordsplit.c:1740-1788 | the loop over the references in a text puts in their values, an undefined one being empty |
| PathVariables.NoDollar | mailutils-3.14/libmailutils/string/expvar.c:282-313 | a text without a dollar sign stays as it is |
| PathVariables.SimpleExpand | mailutils-3.14/libmailutils/wordsplit/wordsplit.c:1740-1788 | what stands behind a text of variables, from a slash on, is expanded by itself |
| PathVariables.Substituted | mailutils-3.14/libmailutils/wordsplit/wordsplit.c:1740-1788 | `$name`, up to the first character that cannot belong to it, is replaced by the value of the variable, or by nothing |
| PathVariables.SubstitutedInBraces | mailutils-3.14/libmailutils/wordsplit/wordsplit.c:1740-1788 | so is `${name}`, whatever follows |
| PathVariables.OtherReferences | mailutils-3.14/libmailutils/wordsplit/wordsplit.c:1740-1788 | `${name-` and its kind begin what is not opened further, and other braces are plain text |
| Namespace.NamespaceTranslateName | mailutils-3.14/imap4d/namespace.c:267-347 | the path the server uses is the path under the longest prefix of the name, expanded and trimmed, which for INBOX is the spool file (`NamespacePaths.InboxChosen`) |
| Namespace.SameExpanded | mailutils-3.14/imap4d/namespace.c:316-335 | names with variables, but without commands, share the path that the server uses if and only if what they are expanded to is equal up to slashes at the end |
| Namespace.SameFinalPath | mailutils-3.14/imap4d/namespace.c:267-347 | under one personal or shared prefix two names without slashes and dollar signs share the path that the server uses if and only if they agree up to a delimiter in front and delimiters at the end |
| Namespace.NoCollision | mailutils-3.14/imap4d/namespace.c:267-347 | names that contain no slash and no dollar sign and do not begin with the delimiter share that path if and only if they are equal up to delimiters at the end, INBOX aside, which is `NamespacePaths.InboxShared` |
| Namespace.PlainNamesDiffer | mailutils-3.14/imap4d/namespace.c:267-347 | such names that do not end in the delimiter either share it only if they are equal |
| Namespace.SharedPath | mailutils-3.14/imap4d/namespace.c:316-335 | three names that share a path: with a delimiter at the end, and with an undefined variable |
| NamespacePaths.InboxPath | mailutils-3.14/imap4d/namespace.c:170-175 | in the personal namespace without a prefix, INBOX in any spelling is exactly the spool file of the user, expanded and trimmed |
| NamespacePaths.InboxChosen | mailutils-3.14/imap4d/namespace.c:201-238 | so it is for every table whose longest prefix of the name is that one |
| NamespacePaths.InboxShared | mailutils-3.14/imap4d/namespace.c:267-347 | another name shares the path of INBOX if and only if the spool file is what the name says below the directory of its own prefix |
| NamespacePaths.InboxApart | mailutils-3.14/imap4d/namespace.c:267-347 | where the spool file does not lie in that directory, no name of the prefix is mixed up with INBOX |
| NamespacePaths.GrayInbox | mailutils-3.14/imap4d/namespace.c:170-175 | the spool file of a user, and a name that shares it when it lies in the home directory |
| NamespacePaths.OrdinaryPath | mailutils-3.14/imap4d/namespace.c:158-199 | the path of a name without slashes and dollar signs |
| NamespacePaths.HomePath | mailutils-3.14/imap4d/namespace.c:130-145 | without a configured namespace a name is a path in the home directory of the user |
| NamespacePaths.OwnVariables | mailutils-3.14/imap4d/namespace.c:286-313 | the variables of a path in the personal and in the shared namespace |
| NamespacePaths.OtherPath | mailutils-3.14/imap4d/namespace.c:267-314 | a name of another user is that mailbox in the directory of the namespace, expanded for that user |
| NamespacePaths.OtherHome | mailutils-3.14/imap4d/namespace.c:291-303 | with the directory `$home`, in the home directory of that user |
| Namespace.ExtractUsername | mailutils-3.14/imap4d/namespace.c:240-265 | whose name it is |
| Namespace.DelimRoundTrip | mailutils-3.14/imap4d/namespace.c:366-380 | encoding and decoding undo each other if and only if the character they would confuse is absent |
| LockFile.MakeLockerFileName | mailutils-3.14/lib/manlock.c:57-93 | the writing loop fills exactly the space that the counting loop found, NUL included |
| LockFile.NoSlash | mailutils-3.14/lib/manlock.c:57-93 | the encoded name holds no slash |
| LockFile.EncodedForm | mailutils-3.14/lib/manlock.c:81-92 | `%2F` for each slash, `%25` for each percent sign, and everything else as it is |
| LockFile.DecodeEncode | mailutils-3.14/lib/manlock.c:81-92 | the URL can be read back from the encoded name |
| LockFile.NoCollision | mailutils-3.14/lib/manlock.c:57-93 | two URLs have the same encoded name if and only if they are equal |

## Left out

- Streams, sockets, timeouts, TLS and SASL handshakes, PAM and other data bases, syslog, directories: only their results appear, as nondeterministic choices.
- Date parsing: opaque but for the day it gives; the search tree keeps the text. A date of the envelope that does not parse leaves the time unset in the source. The theorems on the parser and the evaluator hold for any library of sets; `SearchSets` states them for the one the server uses.
- MsgSet.Contains: the merging of overlapping ranges is left out; where a UID key holds `n:*` beside other items, it also drops those that reach into it.
- MsgSet.UnboundExact: sets with `*` are `MsgSet.StarUnbound`, for one item.
- MsgSet.UidItemExact: speaks of sets of one item; where the range of one item fails, the whole set does.
- Whether a field or a body contains a text, with its folding and character sets; MIME structure, ENVELOPE, BODYSTRUCTURE and the conversion of character sets: not part of this model.
- Memory management of the search parser (its allocation chain): values are garbage collected here.
- TokBuf.TokBuf.Tokenize: requires a line on which the lexer is defined; on an unclosed quote the source reads past the level, and on a bad escape it does not end. Where a quoted string that ends in a backslash ends the line, it also requires a NUL at the place the level has then moved to, at which the source looks.
- CommandReader.Readline: takes the same domain for lines and literals: with its CRLF taken off, a line leaves two NULs above the level, so that at most one token without quotes may stand before such a string on its line; a `{0}` marker, for which no literal is read, is outside it.
- ParseBuf.ParseBuf.constructor: requires that what follows an empty argument is terminated inside the buffer, since the source reads on there.
- SearchParser.SearchBuf.ParseSearchKey: requires that the parser does not crash; `SearchGrammar.AbortsExactly` says when it does.
- SearchGrammar.CompilesExactly: requires that the library takes no text that begins with a closing parenthesis for a message set.
- SearchTrees.TreeRoundTrip: requires that the library takes no text that begins with a closing parenthesis for a message set.
- SectionRoundTrip.SectionRoundTrip: header names are free of blanks, quotes, parentheses and the delimiters, since the server prints them without quoting.
- SectionParser.ParseHeaders: names are stored as text, while the source stores pointers into a buffer that is restored later.
- FetchIo.FetchIo: a read error while a whole text is copied is ignored by the source, so that fewer bytes than announced can follow; the contract then says that they are a prefix.
- HeaderFields.SendHeaderFields: requires that no name sent holds a newline; `HeaderFields.FieldsLength` says what happens otherwise.
- Sync.FlagTable.SyncFlags: of a write behind the allocated table nothing is said but that it happens; every message there was at the last synchronisation lies within.
- Sync.FlagTable.ExpungeMailbox: a failure of the library half-way through an expunge is not modelled; the source does not look at the result.
- The response word of an expunge is EXPUNGED in the source (mailutils-3.14/imap4d/sync.c:167) and EXPUNGE in RFC 3501; the model keeps the numbers only.
- Session.EveryRun: the converse, that an open mailbox implies the selected state, is false; see `Session.OpenButAuthenticated`.
- The number of arguments of a command is a free choice (`Luck.args`).
- Copy.CopyEnv.SafeCopy: the quota total is reset and never refilled in the source, so the quota check is a free choice; UID sets and nested locks are left out.
- Signals.Child.ChildSignal: the handler ignores all signals once it ran, as it means to; the signal table of the library is not part of this model.
- Namespace.NoCollision: collisions in the namespace of other users are left out, whose directories are those of different people, as are directories with commands or with references such as `${x:-y}`.
- PathVariables.NodeExpand: references with a default and commands are opened no further than to where they start; `Namespace.SameExpanded` requires that a name holds none.
- Namespace.Init: the table is built by insertion, where the source appends and then calls a sorting routine of the library.
- Configuration parsing, LIST and STATUS, APPEND, RENAME, IDLE, ID, and the other programs of the package.
