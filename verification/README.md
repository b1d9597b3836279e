# PubMed search bot: verified model of its string core

The bot asks a chat user for keywords and a number of days. It searches
PubMed for matching articles from that window and sends back a CSV file and a
Word document listing them. Most of the program is glue around the chat
framework, the PubMed client and the file writers. This project models the
pure part in between, as Dafny functions over strings, sequences and maps,
and proves what each step promises:

- **Query construction** (`query.dfy`). The keywords are split on
  whitespace. Each token becomes `(tok[Title/Abstract])`. The clauses are
  joined with `" AND "`, and `" AND (start[PDAT] : end[PDAT])"` is appended.
  The two dates come from the clock, so they are parameters.
- **Record normalisation** (`pubmed.dfy`). Each parsed MEDLINE record
  becomes a seven-field `Entry`: source `"PubMed"`, title, authors joined
  with `", "`, journal, year, DOI and link. An empty id list short-circuits
  to no results. The two remote calls (id search, batch detail fetch) are
  function-typed parameters.
- **Export text** (`export.dfy`). The Vancouver-style citation of one entry,
  and the numbered paragraphs `"i. " + citation` of the results document.
- **Day-count parsing** (`days.dfy`). The reply is stripped. A string of
  digits is read as a decimal number; anything else means 30.

The Python string primitives these steps use are modelled in their own
modules, each with its own contract and round-trip lemmas:

- `whitespace.dfy`: `str.split()` and `str.strip()`, over the full set of
  characters `str.isspace()` accepts.
- `joining.dfy`: `sep.join`.
- `substrings.dfy`: `str.replace(pat, "")` and `s.split(c)[0]`.
- `decimal.dfy`: `str(n)` and `int(s)` on digit strings.

Two behaviours of the code worth noting:

- With no keyword tokens, the query is `" AND " + date clause`, with a
  leading `" AND "`. It is not the bare date clause.
- The reply `"0"` gives a window of 0 days. The code does not require a
  positive count.

## Model

| member | source | states |
|---|---|---|
| Query.BuildQuery | pubmed_bot.py:22-25 | With no keyword tokens the query is exactly `" AND " + (start[PDAT] : end[PDAT])`; otherwise it is every token's `(tok[Title/Abstract])` clause followed by its own `" AND "`, in token order, then the date clause |
| Query.QueryWords | pubmed_bot.py:22-25 | Read as whitespace-separated words, the query has 2n+3 words for n tokens: clause of token i at position 2i, `AND` at 2i+1, then the three date-clause words; with no tokens it is `AND` and the date words |
| Query.TermsOfWords | pubmed_bot.py:24 | The strip-and-filter inside the comprehension never changes or drops a token that split produced, so there is exactly one clause per token, in order |
| Query.Terms | pubmed_bot.py:24 | The comprehension yields at most one clause per word |
| Query.QueryIgnoresStrip | pubmed_bot.py:78 | Stripping the keywords before storing them does not change the query |
| Whitespace.Split | pubmed_bot.py:24 | Every token of `keywords.split()` is non-empty and holds no whitespace |
| Whitespace.SplitJoin | pubmed_bot.py:24 | Split inverts joining whitespace-free words with single spaces |
| Whitespace.SplitKeepsContent | pubmed_bot.py:24 | The tokens, concatenated, are exactly the non-whitespace characters of the keywords, in order |
| Whitespace.SplitAtSpace | pubmed_bot.py:24 | A whitespace character is a token boundary: both sides split independently |
| Whitespace.SplitOfStrip | pubmed_bot.py:24 | Split gives the same tokens before and after strip |
| Whitespace.Strip | pubmed_bot.py:84 | `strip()` removes only whitespace, from both ends, and what is left neither starts nor ends with whitespace |
| Whitespace.StripPadded | pubmed_bot.py:84 | Any text with non-whitespace ends is recovered from itself padded with whitespace on both sides |
| Whitespace.StripIdempotent | pubmed_bot.py:84 | Stripping twice is stripping once |
| Joining.Join | pubmed_bot.py:41 | Joining n > 0 strings adds exactly n - 1 separators to their total length; no strings give `""`, one string gives itself |
| Joining.JoinAppend | pubmed_bot.py:41 | Joining two non-empty lists one after the other puts exactly one separator at the seam, so each author keeps its position |
| Joining.JoinThenSeparator | pubmed_bot.py:25 | A joined non-empty list followed by one more separator equals every element followed by its own separator |
| PubMed.Normalize | pubmed_bot.py:38-46 | Source is `"PubMed"`; title and journal are TI and JT or `""` when absent; authors are AU joined with `", "`, `""` when absent; year is the DP text before its first space; the DOI is the LID with every `" [doi]"` deleted, so an LID without the marker is the DOI unchanged; the link is the PubMed prefix, the PMID and `/`, and gives the PMID back |
| PubMed.NormalizeAll | pubmed_bot.py:36-47 | One entry per parsed record, the i-th entry from the i-th record |
| PubMed.FetchPubMed | pubmed_bot.py:19-47 | An empty id list gives no results; otherwise the results are the records the detail fetch returned for those ids, normalised in order |
| PubMed.EmptyRecord | pubmed_bot.py:39-45 | A record with none of the tags gives source `"PubMed"`, five empty fields and the link `https://pubmed.ncbi.nlm.nih.gov//`, which has no PMID in it |
| PubMed.NoIdsNoDetailFetch | pubmed_bot.py:31-32 | With no ids the result is empty and does not depend on the detail fetch at all |
| PubMed.Year | pubmed_bot.py:43 | The year is a prefix of DP with no space in it, and either all of DP or followed in DP by a space |
| Substrings.BeforeFirstSplitsAt | pubmed_bot.py:43 | For x without a space, the year of `x + " " + rest` is x |
| PubMed.Doi | pubmed_bot.py:44 | The DOI is never longer than the LID, and it is the LID unchanged exactly when the LID has no `" [doi]"` in it |
| PubMed.DoiAfterMarker | pubmed_bot.py:44 | For X without the marker, `X + " [doi]"` gives X, and `X + " [doi]" + rest` gives X followed by the DOI of rest |
| PubMed.DoiSinglePass | pubmed_bot.py:44 | The deletion is a single pass: `" [d [doi]oi]"` gives `" [doi]"`, which still holds the marker |
| Substrings.RemoveAll | pubmed_bot.py:44 | `replace(pat, "")` never lengthens the text and shortens it exactly when pat occurs in it |
| Substrings.RemoveAllAfterClean | pubmed_bot.py:44 | For a pattern that cannot overlap itself, the text before its first occurrence is kept verbatim and the occurrence is deleted |
| PubMed.Link | pubmed_bot.py:45 | The link is the PubMed prefix, then the PMID, then a final `/` |
| PubMed.LinkRoundTrip | pubmed_bot.py:45 | The PMID is read back from its link, so distinct PMIDs give distinct links |
| Export.Citation | pubmed_bot.py:50-52 | The citation is the six fields plus 13 template characters, opens with the authors and `". "`, and its last line is the link when the link has no newline |
| Export.CitationFields | pubmed_bot.py:51-52 | Title, journal and year each sit unchanged right after a `". "`, in that order, with `". "` between title and journal and between journal and year; the DOI sits right after `". doi:"`; the citation ends with a newline and the link |
| Export.CitationEndsWithLink | pubmed_bot.py:45-52 | The last line of a normalised entry's citation is its PubMed link, when the PMID has no newline |
| Export.NumberedParagraphs | pubmed_bot.py:62-63 | There are exactly as many paragraphs as results, and paragraph i (from 1) is `Paragraph(i, result i)`: its leading digits are `str(i)`, followed by `". "` and the citation of result i |
| Export.Paragraph | pubmed_bot.py:63 | Reading the leading digits of paragraph n gives back `str(n)`, and so n; what follows the number is `". "` and the citation |
| Days.ParseDays | pubmed_bot.py:84-85 | When the stripped reply is all digits, it is `str(days)` with zero or more zeros in front; any other reply gives 30 |
| Days.ParseDaysOfShow | pubmed_bot.py:84-85 | The decimal text of any n, with any whitespace around it, gives n |
| Days.ParseDaysPadded | pubmed_bot.py:84-85 | The decimal text of any n, with any number of zeros in front and any whitespace around it, gives n |
| Days.ParseDaysFallback | pubmed_bot.py:84-85 | A reply that still holds a non-digit character after stripping gives 30 |
| Days.ParseDaysBlank | pubmed_bot.py:84-85 | An empty or whitespace-only reply gives 30 |
| Days.ParseDaysRejects | pubmed_bot.py:84-85 | `""`, `"abc"` and `"-5"` give 30 |
| Days.ParseDaysAccepts | pubmed_bot.py:84-85 | `"7"` gives 7, `" 10\n"` gives 10 and `"007"` gives 7 |
| Decimal.Value | pubmed_bot.py:85 | `int(s)` of k digits is below 10^k |
| Decimal.Show | pubmed_bot.py:63 | `str(n)` is non-empty, all digits, with no leading zero, and is one character exactly when n < 10 |
| Decimal.ValueOfShow | pubmed_bot.py:85 | `int(str(n)) == n` |
| Decimal.ShowOfValue | pubmed_bot.py:85 | `str(int(s)) == s` for digit text with no leading zero |
| Decimal.ValueOfZerosPrefix | pubmed_bot.py:85 | Zeros in front of digit text do not change `int` of it |
| Decimal.DropZeros | pubmed_bot.py:85 | Any digit text is some zeros followed by canonical digit text |
| Decimal.ShowOfValueWithZeros | pubmed_bot.py:85 | Any digit text is `str(int(s))` with zeros in front of it |

## Left out

- Chat handling (`start`, `get_keywords`, the reply messages and file attachments in `get_days`, the conversation handler): framework and I/O plumbing. Only the strip of the keywords (line 78) and the day parsing (lines 84-85) are modelled.
- The clock: `datetime.now()`, the `timedelta` subtraction and `strftime` (lines 20-21). The start and end dates are parameters. So the model does not state that a window of 0 days gives the same start and end day. It also does not model the overflow error a very large day count raises in `timedelta`.
- `Entrez.esearch`, `Entrez.read`, `Entrez.efetch` and `Medline.parse` (lines 27-35): network calls and a foreign parser. They are the `search` and `efetch` parameters of `PubMed.FetchPubMed`. The cap of 50 ids is passed to `search` as `RetMax`; enforcing it is PubMed's job and is not modelled. Failures of these calls propagate as exceptions in the program and are not modelled.
- The CSV and Word writers (lines 56-58, 60-61, 64-65): foreign libraries and file I/O. Only the paragraph text is modelled; the document heading and the CSV columns are not.
- Configuration and transport choice (`main`, lines 104-137): process bootstrap.
- Days.ParseDays: `str.isdigit()` is modelled for the ASCII digits only. Python also accepts other Unicode digit characters. For superscript digits such as `"²"`, `isdigit()` is true but `int()` raises, which would abort the chat turn; the model does not cover this.
- PubMed.Normalize: a MEDLINE record is modelled as one map of single-valued tags and one map of list tags, following the parser's split of tags. A tag outside its usual kind is read as absent.
