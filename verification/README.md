# Five small Zend Framework 2 components, modelled in Dafny

This project models five classes of Zend Framework 2 and proves properties
of the models:

- **`Zend\Mail\Header\MimeVersion`**, the `MIME-Version` mail header
  (section 4 of RFC 2045). `fromString` cuts a header line at the first
  `": "` and compares the name case-insensitively with `mime-version`. It
  keeps the version only when the value is `digits.digits`. The header
  prints itself back as `MIME-Version: <version>`. The default version is
  `1.0`.
- **`Zend\Validator\Sitemap\Changefreq`**, the validator for a sitemap
  `<changefreq>`. It accepts exactly the seven strings from `always` to
  `never`, compared strictly.
- **`Zend\Validator\Sitemap\Lastmod`**, the validator for a sitemap
  `<lastmod>`. It applies one anchored regular expression for a W3C
  Datetime profile: a date, and optionally a time with minutes, optional
  seconds and a mandatory numeric offset.
- **`Zend\Di\Definition\ArrayDefinition`**, a dependency-injection
  definition. It answers read-only queries about classes, supertypes,
  instantiators and injection methods from a nested PHP array.
- **`Zend\Log\Writer\Mail`**, a log writer.
  - It buffers one formatted line per event and counts events per priority
    name.
  - At shutdown it sends one mail. The body is the lines in write order.
  - If prepend text was set, the subject is `"<text> (<p1>=<n1>, <p2>=<n2>, ...)"`.

Layout:

- `wrappers.dfy`: `Option` and `Result`.
- `php_arrays.dfy`: PHP's ordered arrays with string keys. They are
  association lists with distinct keys, and a new key goes to the end.
- `php_strings.dfy`: digits, integer-to-string conversion, `strtolower`
  and `implode`.
- `validators.dfy`: the PHP value handed to a validator.
- One file per component: `mime_version.dfy`, `changefreq.dfy`,
  `lastmod.dfy`, `array_definition.dfy` and `mail_writer.dfy`.

Classes whose objects the source changes in place are Dafny classes:

- the header;
- the two validators, whose state is the recorded value and the recorded
  error keys;
- the mail writer, the mail message and the transport.

`ArrayDefinition` never changes after construction, so it is a datatype
with member functions.

Regular expressions are written out as recognisers. Each recogniser is
proved equal to a declarative grammar. Neither pattern has PCRE's `D`
modifier, so a final `$` also matches before one trailing `"\n"`. Both
models keep that behaviour:

- `fromString` keeps `1.0\n`'s version as `1.0`;
- `Lastmod` accepts `2012-02-31\n`.

`Lastmod` also accepts day 31 in any month, because the pattern checks
only that the day lies in `01`..`31`.

## Model

| member | source | states |
|---|---|---|
| PhpArrays.HasKey | zf2/tests/Zend/Tool/Project/_files/project1/library/Zend/Di/Definition/ArrayDefinition.php:24 | array_key_exists: true exactly when some pair of the array carries the key, whatever its value (null included) |
| PhpArrays.Keys | zf2/tests/Zend/Tool/Project/_files/project1/library/Zend/Di/Definition/ArrayDefinition.php:19 | array_keys: one key per entry, in insertion order |
| PhpArrays.Get | zf2/tests/Zend/Tool/Project/_files/project1/library/Zend/Di/Definition/ArrayDefinition.php:24 | reading a key gives a value exactly when array_key_exists holds, and that value is the one stored under the key |
| PhpArrays.Put | zf2/library/Zend/Log/Writer/Mail.php:125-129 | assigning to a key: a present key keeps its place and gets the new value; a missing key is appended at the end; no other entry changes |
| PhpArrays.GetPut | zf2/library/Zend/Log/Writer/Mail.php:125-129 | after the assignment the key reads as the new value and every other key reads as before |
| PhpArrays.TotalPut | zf2/library/Zend/Log/Writer/Mail.php:125-129 | overwriting one counter changes the sum of all counters by exactly the difference |
| PhpStrings.NatToString | zf2/library/Zend/Log/Writer/Mail.php:201 | the decimal text of a count: digits only, no leading zero, denoting the count |
| PhpStrings.ToLower | zf2/library/Zend/Mail/Header/MimeVersion.php:43 | strtolower keeps the length and lowers A-Z only, character by character |
| PhpStrings.Implode | zf2/library/Zend/Log/Writer/Mail.php:204 | implode starts with the first piece |
| PhpStrings.ImplodeSnoc | zf2/library/Zend/Log/Writer/Mail.php:204 | imploding one more piece appends glue and piece at the end (just the piece when there were none) |
| PhpStrings.ImplodeEmpty | zf2/library/Zend/Log/Writer/Mail.php:190-205 | with non-empty pieces, the result is "" exactly when there are no pieces |
| PhpStrings.ImplodeNoGlueLength | zf2/library/Zend/Log/Writer/Mail.php:173 | implode with "" glue loses and adds no character: its length is the sum of the lengths |
| MailHeader.FindSeparator | zf2/library/Zend/Mail/Header/MimeVersion.php:40 | the first position of ": " at or after a start, or none when there is none |
| MailHeader.SplitHeaderLine | zf2/library/Zend/Mail/Header/MimeVersion.php:40 | explode(': ', line, 2): the name holds no ": " and name + ": " + value is the line; without a separator the whole line is the name and the value is null |
| MailHeader.SplitAfterName | zf2/library/Zend/Mail/Header/MimeVersion.php:40 | a line built from a separator-free name is cut right after the name, even when the value contains ": " |
| MailHeader.ScanDigits | zf2/library/Zend/Mail/Header/MimeVersion.php:49 | the end of the maximal run of digits from a position |
| MailHeader.IsVersionToken | zf2/library/Zend/Mail/Header/MimeVersion.php:49 | a whole-string match of \d+\.\d+ is at least three characters long and starts and ends with a digit |
| MailHeader.VersionTokenIsGrammar | zf2/library/Zend/Mail/Header/MimeVersion.php:49 | the left-to-right scanner accepts exactly digits, a dot, digits (both directions) |
| MailHeader.MatchVersion | zf2/library/Zend/Mail/Header/MimeVersion.php:49-51 | the capture of ^(\d+\.\d+)$: found exactly for a version token, optionally followed by one "\n" that is not captured |
| MailHeader.ParseVersion | zf2/library/Zend/Mail/Header/MimeVersion.php:38-54 | fails, with the "Invalid header line" error, exactly when the lower-cased name is not mime-version; otherwise the version is the captured token or the default 1.0 |
| MailHeader.HeaderLine | zf2/library/Zend/Mail/Header/MimeVersion.php:78 | the printed line is cut by explode(': ', …, 2) into exactly the field name MIME-Version and the version |
| MailHeader.FieldNameAccepted | zf2/library/Zend/Mail/Header/MimeVersion.php:56-59 | the printed field name holds no ": " and lower-cases to mime-version |
| MailHeader.HeaderLineRoundTrip | zf2/library/Zend/Mail/Header/MimeVersion.php:76-79 | parsing the printed line gives back a digits.digits version unchanged, and any other version as its captured token or 1.0 |
| MailHeader.NameIsCaseInsensitive | zf2/library/Zend/Mail/Header/MimeVersion.php:43 | every capitalisation of the name is accepted, and the version is read from the rest of the line |
| MailHeader.LineWithoutSeparator | zf2/library/Zend/Mail/Header/MimeVersion.php:40-51 | a line without ": " is accepted only when it is the bare name, and then keeps 1.0 |
| MailHeader.MimeVersion.constructor | zf2/library/Zend/Mail/Header/MimeVersion.php:36 | a new header holds version 1.0 |
| MailHeader.MimeVersion.FromString | zf2/library/Zend/Mail/Header/MimeVersion.php:38-54 | a fresh header whose version is the one ParseVersion reads, or the invalid-argument error exactly when ParseVersion fails |
| MailHeader.MimeVersion.GetFieldName | zf2/library/Zend/Mail/Header/MimeVersion.php:56-59 | the field name is exactly MIME-Version, and fromString accepts it |
| MailHeader.MimeVersion.GetFieldValue | zf2/library/Zend/Mail/Header/MimeVersion.php:61-64 | the stored version, whatever format is asked for |
| MailHeader.MimeVersion.ToString | zf2/library/Zend/Mail/Header/MimeVersion.php:76-79 | the printed line is "MIME-Version: " followed by the stored version, and it parses back to that version when it is digits.digits, and otherwise to what the pattern captures or 1.0 |
| MailHeader.MimeVersion.SetVersion | zf2/library/Zend/Mail/Header/MimeVersion.php:87-101 | stores the version unchecked, getVersion then returns it, and the header itself is returned |
| SitemapChangefreq.SevenFrequencies | zf2/library/Zend/Validator/Sitemap/Changefreq.php:61-64 | exactly seven distinct strings are accepted |
| SitemapChangefreq.AcceptedAreLowerCaseLetters | zf2/library/Zend/Validator/Sitemap/Changefreq.php:61-64 | every accepted string is non-empty lower-case ASCII letters |
| SitemapChangefreq.CaseAndSpaceMatter | zf2/library/Zend/Validator/Sitemap/Changefreq.php:86 | the comparison is strict: "daily" passes, "Daily", " daily" and "DAILY" do not |
| SitemapChangefreq.IsChangefreq | zf2/library/Zend/Validator/Sitemap/Changefreq.php:86 | strict membership among the seven frequencies; an accepted value is five to seven characters long |
| SitemapChangefreq.Changefreq.IsValid | zf2/library/Zend/Validator/Sitemap/Changefreq.php:74-92 | true exactly for a string among the seven; a non-string records INVALID and no value; a string is recorded, and a rejected one adds NOT_VALID |
| SitemapLastmod.FieldRanges | zf2/library/Zend/Validator/Sitemap/Lastmod.php:43 | each alternation of the pattern is a numeric range: month 1-12, day 1-31, hour 0-23, minute and second 0-59 |
| SitemapLastmod.MatchLastmod | zf2/library/Zend/Validator/Sitemap/Lastmod.php:43 | the pattern match of a W3C date or date-time; a matched value is 10 to 26 characters long (a date alone, up to a date-time with seconds, an offset and one trailing newline) |
| SitemapLastmod.TwoDigitsPad | zf2/library/Zend/Validator/Sitemap/Lastmod.php:43 | two digits read as a number and written back are the same two characters |
| SitemapLastmod.PadTwoDigits | zf2/library/Zend/Validator/Sitemap/Lastmod.php:43 | a number below 100 written as two digits reads back as itself |
| SitemapLastmod.OffsetRoundTrip | zf2/library/Zend/Validator/Sitemap/Lastmod.php:43 | every valid offset is written as text the offset group matches and reads back as itself |
| SitemapLastmod.OffsetDecodeFormat | zf2/library/Zend/Validator/Sitemap/Lastmod.php:43 | every text the offset group matches is the writing of a valid offset |
| SitemapLastmod.TimeRoundTrip | zf2/library/Zend/Validator/Sitemap/Lastmod.php:43 | every valid time, with or without seconds, is written as a matching time group and reads back as itself |
| SitemapLastmod.TimeDecodeFormat | zf2/library/Zend/Validator/Sitemap/Lastmod.php:43 | every matching time group is the writing of a valid time |
| SitemapLastmod.DateRoundTrip | zf2/library/Zend/Validator/Sitemap/Lastmod.php:43 | every valid date is written as a matching date and reads back as itself |
| SitemapLastmod.DateDecodeFormat | zf2/library/Zend/Validator/Sitemap/Lastmod.php:43 | every matching date is the writing of a valid date |
| SitemapLastmod.FormatRoundTrip | zf2/library/Zend/Validator/Sitemap/Lastmod.php:43 | every valid datetime is written as a string the pattern matches and reads back as itself |
| SitemapLastmod.DecodeFormatRoundTrip | zf2/library/Zend/Validator/Sitemap/Lastmod.php:43 | every string the pattern matches (before the end) is the writing of the valid datetime it reads as |
| SitemapLastmod.MatchedIsInGrammar | zf2/library/Zend/Validator/Sitemap/Lastmod.php:43 | every accepted string is a written valid datetime, optionally followed by one "\n" |
| SitemapLastmod.GrammarIsMatched | zf2/library/Zend/Validator/Sitemap/Lastmod.php:43 | every written valid datetime, optionally followed by one "\n", is accepted |
| SitemapLastmod.RecogniserMatchesGrammar | zf2/library/Zend/Validator/Sitemap/Lastmod.php:43 | the pattern accepts exactly the grammar's strings (both directions) |
| SitemapLastmod.FormatLength | zf2/library/Zend/Validator/Sitemap/Lastmod.php:43 | a written datetime has 10, 22 or 25 characters, by whether it has a time and seconds |
| SitemapLastmod.AcceptedLengths | zf2/library/Zend/Validator/Sitemap/Lastmod.php:43 | without its optional trailing "\n", an accepted string has 10, 22 or 25 characters |
| SitemapLastmod.AcceptedAlphabet | zf2/library/Zend/Validator/Sitemap/Lastmod.php:43 | accepted strings hold only digits, '-', 'T', ':', '+' and "\n": no 'Z' designator and no fractional seconds |
| SitemapLastmod.AcceptedExamples | zf2/library/Zend/Validator/Sitemap/Lastmod.php:43 | 2012-02-31 and the same with a trailing "\n" are accepted, as are times with and without seconds |
| SitemapLastmod.RejectedExamples | zf2/library/Zend/Validator/Sitemap/Lastmod.php:43 | month 13, day 00, a Z suffix, fractional seconds and a time without offset are rejected |
| SitemapLastmod.Lastmod.IsValid | zf2/library/Zend/Validator/Sitemap/Lastmod.php:70-85 | true exactly for a string the pattern matches; a non-string records INVALID and no value; a string is recorded, and a rejected one adds NOT_VALID |
| DiArrayDefinition.ArrayDefinition.ClassEntry | zf2/tests/Zend/Tool/Project/_files/project1/library/Zend/Di/Definition/ArrayDefinition.php:29 | isset on a class: its entry exactly when the class is present with a non-null entry |
| DiArrayDefinition.ArrayDefinition.MethodTable | zf2/tests/Zend/Tool/Project/_files/project1/library/Zend/Di/Definition/ArrayDefinition.php:59 | isset on a class's injectionMethods: the table exactly when the class entry is set and holds a non-null table |
| DiArrayDefinition.ArrayDefinition.GetClasses | zf2/tests/Zend/Tool/Project/_files/project1/library/Zend/Di/Definition/ArrayDefinition.php:17-20 | the top-level keys in insertion order, null entries included |
| DiArrayDefinition.ArrayDefinition.HasClass | zf2/tests/Zend/Tool/Project/_files/project1/library/Zend/Di/Definition/ArrayDefinition.php:22-25 | true exactly when the class is a key, even with a null entry, that is, exactly when getClasses lists it |
| DiArrayDefinition.ArrayDefinition.GetClassSupertypes | zf2/tests/Zend/Tool/Project/_files/project1/library/Zend/Di/Definition/ArrayDefinition.php:27-38 | the stored supertypes of a set class, [] when they are missing or null, and [] for a missing or null class |
| DiArrayDefinition.ArrayDefinition.GetInstantiator | zf2/tests/Zend/Tool/Project/_files/project1/library/Zend/Di/Definition/ArrayDefinition.php:40-51 | null exactly for a missing or null class; otherwise the stored instantiator, or __construct when it is missing or null |
| DiArrayDefinition.ArrayDefinition.HasInjectionMethods | zf2/tests/Zend/Tool/Project/_files/project1/library/Zend/Di/Definition/ArrayDefinition.php:53-64 | array() exactly when the class or its injectionMethods is unset, else whether that table is non-empty |
| DiArrayDefinition.ArrayDefinition.HasInjectionMethod | zf2/tests/Zend/Tool/Project/_files/project1/library/Zend/Di/Definition/ArrayDefinition.php:66-81 | true exactly when class, table and method entry are all set; array() otherwise; never false |
| DiArrayDefinition.ArrayDefinition.GetInjectionMethods | zf2/tests/Zend/Tool/Project/_files/project1/library/Zend/Di/Definition/ArrayDefinition.php:83-94 | the keys of the class's injection-method table in order (null entries included), or [] when it is unset |
| DiArrayDefinition.ArrayDefinition.GetInjectionMethodParameters | zf2/tests/Zend/Tool/Project/_files/project1/library/Zend/Di/Definition/ArrayDefinition.php:96-111 | the stored parameters of a set method entry, and [] when any level is missing or null |
| DiArrayDefinition.ArrayDefinition.ToArray | zf2/tests/Zend/Tool/Project/_files/project1/library/Zend/Di/Definition/ArrayDefinition.php:12-15 | the array the definition was constructed from: constructing from it again gives the same definition |
| DiArrayDefinition.InjectionMethodIsListed | zf2/tests/Zend/Tool/Project/_files/project1/library/Zend/Di/Definition/ArrayDefinition.php:66-94 | a method hasInjectionMethod reports is listed by getInjectionMethods, and hasInjectionMethods is then truthy |
| DiArrayDefinition.ParametersComeFromInjectionMethod | zf2/tests/Zend/Tool/Project/_files/project1/library/Zend/Di/Definition/ArrayDefinition.php:66-111 | non-empty parameters come only from a method hasInjectionMethod reports |
| DiArrayDefinition.HasInjectionMethodsIffListed | zf2/tests/Zend/Tool/Project/_files/project1/library/Zend/Di/Definition/ArrayDefinition.php:53-94 | hasInjectionMethods is truthy exactly when getInjectionMethods is non-empty |
| DiArrayDefinition.NullMethodEntry | zf2/tests/Zend/Tool/Project/_files/project1/library/Zend/Di/Definition/ArrayDefinition.php:76-80 | a null method entry is listed by getInjectionMethods, yet hasInjectionMethod gives array() and its parameters are [] |
| DiArrayDefinition.NullClassEntry | zf2/tests/Zend/Tool/Project/_files/project1/library/Zend/Di/Definition/ArrayDefinition.php:22-64 | a null class entry counts for hasClass and getClasses, but the other queries treat the class as unknown |
| DiArrayDefinition.InstantiatorOnlyForKnownClass | zf2/tests/Zend/Tool/Project/_files/project1/library/Zend/Di/Definition/ArrayDefinition.php:40-44 | an instantiator, even the default, is reported only for a class hasClass knows |
| LogMailWriter.MailMessage.SetSubject | zf2/library/Zend/Log/Writer/Mail.php:169 | the message's subject becomes the given text; the body is untouched |
| LogMailWriter.MailMessage.SetBody | zf2/library/Zend/Log/Writer/Mail.php:173 | the message's body becomes the given text; the subject is untouched |
| LogMailWriter.Transport.Send | zf2/library/Zend/Log/Writer/Mail.php:179 | the transport receives the message's subject and body as they are when it is sent |
| LogMailWriter.FirstSeen | zf2/library/Zend/Log/Writer/Mail.php:125-126 | the distinct priority names in order of first occurrence: each occurs in the input and none twice |
| LogMailWriter.FirstSeenHas | zf2/library/Zend/Log/Writer/Mail.php:125-126 | a name is first-seen exactly when it was written |
| LogMailWriter.OccursOneMore | zf2/library/Zend/Log/Writer/Mail.php:128 | writing a name once more adds one occurrence of it and of no other name |
| LogMailWriter.CountOneMoreSame | zf2/library/Zend/Log/Writer/Mail.php:125-129 | the event's own priority is counted 1 when new and one more otherwise |
| LogMailWriter.CountOneMoreOther | zf2/library/Zend/Log/Writer/Mail.php:125-129 | every other priority's count is unchanged by the event |
| LogMailWriter.KeysOneMore | zf2/library/Zend/Log/Writer/Mail.php:125-126 | the table's keys stay the first-seen names: a new name goes to the end, a known one keeps its place |
| LogMailWriter.CountOneMore | zf2/library/Zend/Log/Writer/Mail.php:125-129 | after one more event the table still maps exactly the written names, in first-seen order, to their numbers of occurrences |
| LogMailWriter.WriteOne | zf2/library/Zend/Log/Writer/Mail.php:122-133 | buffering one line and counting its priority keeps one line per event, and keeps the counters describing the events and summing to the line count |
| LogMailWriter.SummaryItems | zf2/library/Zend/Log/Writer/Mail.php:200-202 | one "priority=count" item per table entry, in table order |
| LogMailWriter.Summary | zf2/library/Zend/Log/Writer/Mail.php:196-205 | the comma-joined "priority=count" text; it starts with the first priority seen followed by "=" |
| LogMailWriter.SummaryEmpty | zf2/library/Zend/Log/Writer/Mail.php:190-205 | the summary is the empty string exactly when no entry was counted |
| LogMailWriter.SummaryAppend | zf2/library/Zend/Log/Writer/Mail.php:200-204 | a priority seen for the first time is summarised after all earlier ones, separated by ", " |
| LogMailWriter.SummaryCountsWrittenEvents | zf2/library/Zend/Log/Writer/Mail.php:196-205 | for the counters of the events written, item i is the i-th first-seen priority "=" its number of events |
| LogMailWriter.MailWriter.constructor | zf2/library/Zend/Log/Writer/Mail.php:93-103 | a new writer holds the given message, transport and formatter, with nothing buffered or counted and no prepend text |
| LogMailWriter.MailWriter.SetTransport | zf2/library/Zend/Log/Writer/Mail.php:111-115 | replaces the transport, keeps the counting invariant, changes nothing else and returns the writer itself |
| LogMailWriter.MailWriter.DoWrite | zf2/library/Zend/Log/Writer/Mail.php:122-133 | appends the formatted line; a new priority is appended to the table with 1, a known one goes up by one; the counting invariant is kept |
| LogMailWriter.MailWriter.SetSubjectPrependText | zf2/library/Zend/Log/Writer/Mail.php:147-151 | stores the prepend text, keeps the counting invariant, changes nothing else and returns the writer itself |
| LogMailWriter.MailWriter.GetFormattedNumEntriesPerPriority | zf2/library/Zend/Log/Writer/Mail.php:196-205 | the loop builds the summary: the items "priority=count" in table order joined by ", " |
| LogMailWriter.MailWriter.Shutdown | zf2/library/Zend/Log/Writer/Mail.php:157-188 | with nothing buffered nothing changes; otherwise the subject becomes "<prepend> (<summary>)" when prepend text is set, the body is the lines joined with no separator, and the transport receives that message |

## Left out

- The transport's failure is not modelled. When sending throws an exception implementing the transport's `ExceptionInterface`, the source turns it into a `trigger_error` warning (Mail.php:180); any other exception propagates out of `shutdown`. The model's `Transport.Send` only records the message; a real transport (Sendmail, SMTP) is I/O.
- The default transport is not modelled. When the writer is constructed without one, the source creates a `Sendmail` transport; here the constructor always takes a transport.
- The formatter is not modelled. `SimpleFormatter` and its timestamp and message formatting are a function parameter of the writer.
- `AbstractWriter::write`, its filters and its error handling are not part of this model. Only `doWrite`, which `write` calls, is modelled.
- `LogMailWriter.MailWriter.SetSubjectPrependText` does not model the `(string)` cast of a non-string argument. The model takes a string.
- `MimeVersion::setEncoding` and `getEncoding` are not modelled. Both do nothing and return nothing.
- `MailHeader.MimeVersion.GetVersion` has no contract of its own. `SetVersion`'s contract states what it returns.
- The message templates of the validators and `AbstractValidator`'s message handling are not modelled. The model records the value passed to `setValue` and the keys passed to `error()`. `setValue` in `AbstractValidator` also clears the messages of earlier calls; that clearing is not modelled. Here `errorKeys` only grows across calls.
- `SitemapChangefreq.Changefreq.IsValid` does not model the second `is_string` check (Changefreq.php:82-84). The first check already returned for non-strings, so that branch cannot be reached.
- `preg_match`'s failure mode is not modelled: it returns `false` on a PCRE error, silenced by `@` in Lastmod.php:78. The fixed pattern and string input give no error here.
- PHP turns integer-like string keys such as `"7"` into integer keys. The model keeps every key a string.
- Inside a class entry, the `superTypes`, `instantiator` and `injectionMethods` keys treat a missing key and a key holding null as one case: every access to them is guarded by `isset`. The other levels keep the two distinct. At the top level `hasClass` and `getClasses` tell them apart, and in the method table `getInjectionMethods` lists a method whose entry is null (`array_keys`, ArrayDefinition.php:93; see `NullMethodEntry`).
- The leaf values of the definition array are narrowed. The instantiator is a string and each parameter is a string or null. `RuntimeDefinition` produces more: `false` as the instantiator, and `[class or null, optional, instantiable]` arrays as parameters. No query here looks inside those values; each is returned as stored, so no result depends on the narrowing. Values of other PHP types where an array is expected (a string as `superTypes`, say) are not modelled.
- `PhpStrings.ToLower` follows `strtolower` in the C locale: only A-Z change. Before PHP 8.2 `strtolower` depends on the process locale, which is not modelled.
- `MailHeader.SplitHeaderLine`: when the line holds no ": ", `list()` assigns null to the value with a notice (MimeVersion.php:40), and `preg_match` then receives null and matches nothing (MimeVersion.php:49). The model gives the value as `None`, which yields the default version as the source does; the notice and the null-to-string conversion are not modelled.
- `LogMailWriter.MailWriter.DoWrite` counts with unbounded integers. In PHP, `++` on a counter at `PHP_INT_MAX` (Mail.php:128) turns it into a float; that overflow is not modelled.
- `RuntimeDefinition`, the other `Definition` implementations, `Zend\Form\Element\Date` and the test suites are not part of this model.
- `PhpStrings.Implode`: its own contract states only that the first piece starts the result. Its meaning is proved by `ImplodeSnoc`, `ImplodeEmpty` and `ImplodeNoGlueLength`.
