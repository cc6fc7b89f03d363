# Shiksha page scraper: the data-shaping core

`scraper.py` loads pages from shiksha.com in a browser, parses them with
BeautifulSoup, and writes the extracted content as JSON. This project models
the part of it that turns DOM fragments, once they are found, into that JSON.
This covers the table shapes, the bounded sibling scans, the FAQ question and
answer pairing, the Q&A grouping, and the discussion feed with its view
counter. It then proves what each of these promises about its output.

The parser's results are inputs to the model:
- A table is a sequence of rows. Each row is a sequence of cells, and each
  cell has a tag (`td` or `th`), a text and an optional link.
- A run of siblings is a sequence of `Sibling` values.
- A post is a record of its optional parts.

The source builds its results step by step: lists are appended in loops,
`row_dict` is filled key by key, `questions_dict` is updated in place, and
`qa_data` is overwritten field by field. Each such loop is a Dafny `method`
with the same loop. Its `ensures` ties the result to a specification
function, and lemmas state the properties of that function.

Modules:

- `Wrappers`: `Option`.
- `Text`: string helpers with Python's meaning:
  - `strip`, `split()[0]`, `replace`, `" ".join`;
  - `int()` on a decimal literal, ASCII `isdigit`;
  - substring containment, and `"col_{idx}"`.
- `Seqs`: `Pick`, the filtered append loop `for x in s: if keep(x): out.append(make(x))`, with its membership, order and concatenation lemmas.
- `Dicts`: Python's insertion-ordered `dict`:
  - `d[k] = v` overwrites a key where it stands, or appends a new key;
  - `Assign` is a run of such assignments.
- `Dom`: the parsed fragments:
  - cells, rows and tables, with their `td` and `th` views;
  - sibling tags, answer containers, tag and author links;
  - the followers `span` with its `valuecount` attribute.
- `Tables`:
  - header-keyed rows with the `col_N` fallback;
  - the strict-width filters (two-cell highlights, three-`td` exams);
  - the cutoff and seat dictionaries;
  - verbatim tables, job profiles and syllabus link texts.
- `Siblings`: the bounded scans:
  - the next two non-empty paragraphs;
  - the paragraphs before the next `h4`;
  - the long paragraphs among the first two.
- `Faqs`: FAQ question and answer pairing for the eligibility, section and salary FAQs.
- `Course`: the course page sections:
  - overview, eligibility content and specializations list;
  - syllabus and industry sections selected by keyword;
  - the IIT seat tables.
- `Listing`: the listing page's table of contents, and its `h2`-delimited sections.
- `QA`: the Q&A page:
  - the stats;
  - grouping answers under their question text, in first-seen order;
  - vote counts.
- `Feed`: the discussion feed, with one record per post and the view counter parsing.

## Model

| member | source | states |
|---|---|---|
| Dicts.Put | scraper.py:145-147 | `d[k] = v` on an ordered dict: a new key goes at the end; an existing key keeps its place and all other entries are unchanged |
| Dicts.GetPut | scraper.py:145-147 | after `d[k] = v`, looking up `k` gives `v`, and every other key reads as before |
| Dicts.PutPut | scraper.py:1004-1010 | assigning the same key twice leaves only the second value |
| Dicts.AssignKeys | scraper.py:145-147 | a dict filled by successive assignments has each key once, and exactly the keys that were assigned |
| Dicts.AssignLastWins | scraper.py:145-147 | a key holds the value of the last assignment to it |
| Dicts.AssignDistinct | scraper.py:145-147 | when no key is assigned twice, the dict holds the pairs in the order they were assigned |
| Seqs.PickMembership | scraper.py:94-97 | the filtered append loop outputs an item exactly when some input item yields it |
| Seqs.PickAt | scraper.py:861-906 | the item kept from input `i` comes right after the items kept from the inputs before `i` |
| Seqs.PickAppend | scraper.py:861-906 | filtering two lists one after the other gives the two outputs concatenated |
| Seqs.PickKeepsAll | scraper.py:397-408 | when every input is kept, there is exactly one output per input, in input order |
| Text.ColKey | scraper.py:146 | a synthetic key `f"col_{idx}"` always starts with "col_" followed by at least one character |
| Text.ColKeyInjective | scraper.py:146 | different column indices give different `col_N` keys |
| Text.NatToStringInjective | scraper.py:146 | different numbers have different decimal spellings |
| Text.RemoveAll | scraper.py:221 | `s.replace(pat, "")` never makes the string longer |
| Text.RemoveAllAbsent | scraper.py:221 | `s.replace(pat, "")` leaves `s` unchanged when `pat` does not occur in it |
| Text.RemoveAllLeading | scraper.py:570 | a leading occurrence of the pattern is removed and the rest is processed the same way |
| Text.FirstToken | scraper.py:1082 | `split()[0]` of text that contains no whitespace is the text itself |
| Text.ReplaceCharAppend | scraper.py:1082 | `replace` of a character works piece by piece over a concatenation |
| Text.JoinEmptyIff | scraper.py:554-555 | `" ".join(parts)` is empty exactly when there are no parts or a single empty part |
| Text.ParseIntOfDigits | scraper.py:996-997 | `int()` of an ASCII digit string is its decimal value |
| Text.ParseIntOfNat | scraper.py:1084 | `int()` reads back the decimal spelling of every natural number |
| Text.ParseIntOfPointFails | scraper.py:1083-1086 | `int()` of a text that starts and ends with a digit but holds a decimal point raises |
| Dom.BoxTextEmptyIff | scraper.py:170-175 | an answer's text is empty exactly when it has no paragraphs and no text, or a single empty paragraph |
| Dom.FollowersOfCount | scraper.py:982 | a `valuecount` that spells `n` reads as `n`; a missing span or attribute reads as 0 |
| Tables.KeyedRow | scraper.py:142-148 | the row dict is each cell's text assigned under its key, cell by cell |
| Tables.KeyedRowKeys | scraper.py:145-147 | no cell is dropped: the row's keys are exactly the cells' keys (header or `col_N`), each once |
| Tables.KeyedRowValue | scraper.py:145-147 | a cell's text is stored under its key unless a later cell has the same key |
| Tables.KeyedRowCoversAllCells | scraper.py:259-271 | with distinct headers that do not look like `col_N`, a row of M cells has M entries in cell order: headers first, then `col_N`..`col_{M-1}` |
| Tables.HeaderKeyedTable | scraper.py:139-152 | the headers are every `th` text; there is exactly one row dict per `tr` after the first, and no row is dropped |
| Tables.OverviewHighlights | scraper.py:106-121 | `columns` is always `["Particular","Details"]`; the rows are the two-cell rows below each table's header, table after table |
| Tables.TableHighlights | scraper.py:108-114 | one table's highlights: a highlight for each row below the header that has exactly two cells, in row order |
| Tables.TableHighlightsMembership | scraper.py:108-114 | a highlight comes from a table exactly when one of its data rows has two cells with those texts |
| Tables.HighlightsMembership | scraper.py:107-115 | a highlight appears exactly when some table has a two-cell data row with those texts |
| Tables.PopularExams | scraper.py:191-203 | no table gives no exams; otherwise there is one exam per data row that has exactly three `td` |
| Tables.ExamsMembership | scraper.py:194-202 | an exam is listed exactly when a data row has three `td` with its name and dates; the link is `None` exactly when the third cell has no anchor |
| Tables.StrictTable | scraper.py:886-901 | the listing-page table skips its header row and keeps the rows whose `td` count equals the header count, in order |
| Tables.StrictRowKeys | scraper.py:896-899 | each kept row's keys are exactly the headers |
| Tables.StrictRowPairs | scraper.py:896-899 | with distinct headers, a kept row pairs the i-th header with the i-th `td` |
| Tables.StrictTableMembership | scraper.py:892-901 | a row dict is in the output exactly when some data row's `td` count equals the header count and that row gives this dict |
| Tables.CutoffTable | scraper.py:209-214 | one dict per data row, keyed by the headers over the row's `td` cells |
| Tables.CutoffRowKeys | scraper.py:214 | a row no wider than the header list has only header keys and never a `col_N` key |
| Tables.RowTexts | scraper.py:398-402 | a row's data is the text of each of its cells, in cell order |
| Tables.RawTable | scraper.py:396-408 | every `tr`, header row included, becomes its cell texts; rows with no cells are dropped |
| Tables.RawTableRows | scraper.py:625-635 | no output row is empty, and a non-empty `tr` comes out after the outputs of the rows before it |
| Tables.RawTableOfFullRows | scraper.py:660-670 | with no empty row, there is one list per `tr`, in order, and rows may differ in length |
| Tables.AnswerTables | scraper.py:767-779 | an FAQ answer's tables are its verbatim tables that have at least one non-empty row |
| Tables.JobProfiles | scraper.py:590-600 | one profile per data row with at least three cells, taken from its first three cells |
| Tables.JobProfilesMembership | scraper.py:592-600 | a profile is listed exactly when a data row has three or more cells with those texts |
| Tables.SyllabusLinks | scraper.py:424-437 | the non-empty left and right cell texts of each data row that has at least two cells |
| Tables.SyllabusLinksFromRows | scraper.py:430-437 | at most two texts per data row, each non-empty and taken from one of that row's first two cells |
| Siblings.NextParagraphs | scraper.py:453-462 | the useful links are the first two non-empty `p` siblings, in sibling order, or fewer if there are fewer |
| Siblings.NextParagraphsItems | scraper.py:688-697 | at most two items, each non-empty and the text of a `p` sibling |
| Siblings.BeforeH4Is | scraper.py:549 | the scan stops at the first `h4` sibling |
| Siblings.SalaryDescription | scraper.py:547-555 | the description is the space-join of the `p` siblings before the first `h4` |
| Siblings.SalaryDescriptionStopsAtH4 | scraper.py:549-552 | siblings after an `h4` never reach the description |
| Siblings.SalaryDescriptionEmpty | scraper.py:543-555 | with no `p` before the first `h4`, the description is `""` |
| Siblings.OverviewDescription | scraper.py:94-97 | the description keeps, from the first two paragraphs, those longer than 30 characters |
| Siblings.OverviewDescriptionBounds | scraper.py:94-97 | at most two items, each longer than 30 characters and one of the first two paragraphs |
| Faqs.EligibilityFaqs | scraper.py:154-181 | one pair per block that has both a question and a non-empty answer, in block order |
| Faqs.EligibilityFaqsMembership | scraper.py:157-181 | a pair is emitted exactly when a block has a "Q:" span, at least two spans, a non-empty second span and a non-empty answer |
| Faqs.EligibilityAnswerEmpty | scraper.py:166-177 | the answer, and so the item, is dropped exactly when there is no answer `div` or its text is empty |
| Faqs.SectionFaqs | scraper.py:306-340 | the `questions` block is absent when no FAQ was found; otherwise it holds the FAQ of every block with a question |
| Faqs.SectionFaqsMembership | scraper.py:316-335 | an FAQ is emitted exactly when the block has at least two spans and a non-empty second span; its answer is `None` exactly when the answer text is empty |
| Faqs.SectionFaqsOnePerBlock | scraper.py:470-504 | when every block has a question, there is one FAQ per block, in block order |
| Faqs.QuestionsBlock | scraper.py:337-340 | the `questions` item is present exactly when the FAQ list is non-empty |
| Faqs.SalaryFaqs | scraper.py:741-795 | the salary FAQs are the section FAQs, each carrying the tables of its own answer `div` |
| Faqs.SalaryFaqTables | scraper.py:787-788 | `tables` is attached exactly when the block's own answer has a table with a non-empty row, and then it holds those tables |
| Faqs.SalaryFaqsStaleTables | scraper.py:766-788 | as written, a block with no answer `div` carries the tables of the previous block's answer |
| Course.CourseOverview | scraper.py:90-126 | the long paragraphs among the first two, every anchor with an `href` as a link, and the highlights |
| Course.ImportantLinksMembership | scraper.py:99-104 | a link is listed exactly when some anchor has that text and `href` |
| Course.EligibilityContent | scraper.py:128-183 | headings as text items and tables as header-keyed tables, in document order, followed by the FAQs |
| Course.EligibilityContentItems | scraper.py:133-152 | each heading and each table gives exactly one item, placed after the items of the elements before it |
| Course.EligibilityIgnoresOthers | scraper.py:133-134 | the `p` and `div` elements that are matched add nothing |
| Course.SpecializationList | scraper.py:289-303 | one entry per `li` with a linked anchor; the block is appended only when non-empty |
| Course.SpecializationListShape | scraper.py:293-303 | the block is absent exactly when no `li` has a link; an entry is listed exactly when an `li` has that anchor text and count |
| Course.SyllabusSections | scraper.py:367-415 | one section per `h2`/`h3` whose text contains a syllabus keyword, with the next paragraph, the verbatim table and the note |
| Course.SyllabusSectionsMembership | scraper.py:370-413 | a section is listed exactly for a keyword heading, and its semester table has no empty row |
| Course.IndustryNamePlain | scraper.py:570 | a heading that contains neither "B Tech Jobs" nor "BTech Jobs" is named by its stripped text |
| Course.IndustrySections | scraper.py:561-605 | one section per `h4` that names an industry, with the next paragraph, the job profiles of the next table, and the note |
| Course.IndustrySectionsMembership | scraper.py:564-605 | each industry heading gives a section in heading order, named by its text without "B Tech Jobs"/"BTech Jobs" |
| Course.IitSeats | scraper.py:217-230 | the seat dict assigns each IIT heading's name its cutoff rows, heading by heading |
| Course.IitSeatsKeys | scraper.py:218-229 | keys are unique; a heading's name holds its seats unless a later heading has the same name (the last one wins) |
| Listing.TableOfContents | scraper.py:843-855 | one entry per `li` with an anchor, in list order |
| Listing.TableOfContentsMembership | scraper.py:847-853 | an entry is listed exactly when some `li` has an anchor with that text |
| Listing.UntilH2Is | scraper.py:869-870 | the sibling scan stops at the first `h2` |
| Listing.SectionContent | scraper.py:869-903 | a section's content is the block of each `p`, `ul` and table before the next `h2`, in order |
| Listing.Sections | scraper.py:859-908 | one section per `h2`, in document order, each with its heading text and its content |
| Listing.SectionStopsAtNextH2 | scraper.py:869-871 | nothing after the next `h2` reaches the content |
| Listing.SectionIgnoresOtherTags | scraper.py:873-903 | siblings other than `p`, `ul` and `table` leave the content unchanged |
| Listing.SectionBlockAt | scraper.py:873-903 | each `p`, `ul` and table gives its block, placed after the blocks of the siblings before it |
| QA.StatValue | scraper.py:965 | the `valuecount` attribute when present and non-empty, otherwise the tag's text |
| QA.Stats | scraper.py:959-966 | the stats pair the keys and cells by position up to the shorter list, and skip cells without a count tag |
| QA.StatEntriesShape | scraper.py:961-966 | each stats key appears at most once, and exactly for a paired cell that has a count tag |
| QA.VoteCountIsInt | scraper.py:996-997 | a vote count is the integer value of an all-digit text; otherwise, or when the element is missing, it is 0 |
| QA.Questions | scraper.py:968-1025 | the question list is the grouped dict's entries, in insertion order |
| QA.Distinct | scraper.py:1004 | the keys in first-seen order: each question text once |
| QA.FirstIndex | scraper.py:1004-1009 | the first post with a given question text, or none when no post has it |
| QA.AnswersFor | scraper.py:1010-1016 | the answers of a question are those of the posts with that exact text, in post order |
| QA.GroupedKeys | scraper.py:1003-1009 | there is one entry per distinct exact question text, in first-occurrence order; posts without a question are skipped |
| QA.GroupedGet | scraper.py:1004-1016 | an entry's tags and followers come from the first post with that text, and its answers are all of that text's answers in encounter order |
| QA.GroupedTotal | scraper.py:1010-1016 | the total number of answers equals the number of posts kept |
| QA.ScrapeQA | scraper.py:930-1027 | when the posts never load, the result is empty; otherwise it has the tag name, description, stats and grouped questions |
| Feed.ViewsFirstWord | scraper.py:1082 | only the first word of the counter text counts |
| Feed.ViewsOfCount | scraper.py:1082-1084 | a plain count reads as its number |
| Feed.ViewsOfThousands | scraper.py:1082-1084 | `"<n>k"` reads as n * 1000 |
| Feed.ViewsOfFraction | scraper.py:1082-1086 | a fractional count `"<w>.<f>k"` does not parse and is kept as the substituted text `"<w>.<f>000"` (so `"2.5k"` becomes `"2.5000"`, not 2500) |
| Feed.ParseViews | scraper.py:1080-1086 | the integer when the substituted text parses, otherwise the substituted text |
| Feed.Record | scraper.py:1041-1102 | a record starts from the defaults and each part the post has overwrites its field |
| Feed.RecordDefaults | scraper.py:1042-1054 | a post with no optional parts gets the defaults: `followers=0`, `views=0`, `tags=[]`, no texts and no author |
| Feed.DiscussionFeed | scraper.py:1039-1104 | exactly one record per post, in post order, with no grouping or merging |

## Left out

- Browser I/O is not modelled:
  - driver creation, scrolling, `driver.get`, `time.sleep` and `WebDriverWait` (scraper.py:19-56);
  - the load wait of the Q&A page (scraper.py:931-938), which is a boolean parameter of `QA.ScrapeQA`.
- BeautifulSoup is not modelled:
  - HTML parsing, class and CSS selector matching, and `find_next`/`find_next_sibling` traversal;
  - the results of these are inputs. A heading comes with the next `p`, table and note that the document holds after it; a block comes with its answer `div`.
- `get_text` is not modelled: its spacing and stripping variants are not distinguished, and each element's text is given.
- Persistence is not modelled: `auto_update_scraper` writes a temporary file and calls `os.replace` (scraper.py:1140-1156).
- Orchestration and `try/finally` cleanup (scraper.py:1110-1130) are not modelled.
- Single-element lookups that copy one text into the output are not modelled:
  - page titles, update dates and author blocks;
  - the `tbSec2` main headings and the introduction paragraphs;
  - the specialization note and intro, the recruiters and placements headings, and their descriptions and notes;
  - the YouTube `iframe` and the tag head of the Q&A page;
  - the listing page's views, title and intro.
- `Text.ParseInt`: Unicode digits, which Python's `int()` and `isdigit()` accept, are left out; only ASCII digits are modelled.
- Calls that raise are guarded with `requires` rather than given a default:
  - `int(valuecount)` on non-numeric text (`QA.PostsParse`, `Feed.PostParses`);
  - `headers[i]` on a row with more `td` than `th` (`Tables.CutoffTable`, `Course.SeatTablesFit`);
  - `rows[0]` of an empty listing table (`Listing.TablesHaveRows`);
  - `split()[0]` of empty view text.
- Tables.PopularExams: a cell's `href` stands for its first anchor's `href`. An anchor without `href` makes `cols[2].find("a")["href"]` raise (scraper.py:201); that case is not separated from a cell with no anchor.
- `Listing.BlockOf`: a table with no rows would make the source raise; under the preconditions it never occurs, and it contributes nothing.
- Course.SyllabusSections: the enclosing content block is appended only when the list is non-empty (scraper.py:507-511); this wrapping is not modelled. The same applies to Course.IndustrySections (scraper.py:798-802).
- Faqs.SalaryFaqs models the evident intent, the tables of each block's own answer. The code as written is `Faqs.SalaryFaqsAsWritten`; see Findings.

## Findings

| source | as written | input that shows it | evidently intended | confidence | as-written member | corrected member |
|---|---|---|---|---|---|---|
| scraper.py:766-788 | `answer_tables` is bound only inside `if answer_div:`. It is read for every block that has a question. A block with no answer `div` reuses the previous block's tables, or raises `NameError` when no earlier block had one | first block: a question whose answer `div` holds the table `[["Fresher"]]`; second block: a question with no answer `div`. The second FAQ gets `tables = [[["Fresher"]]]` | each FAQ carries only the tables of its own answer `div`, and none when it has no answer `div` | not executed | Faqs.SalaryFaqsAsWritten, Faqs.SalaryFaqsStaleTables | Faqs.SalaryFaqs, Faqs.SalaryFaqTables |
