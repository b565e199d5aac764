# Hangman bot configuration engine and game rules, in Dafny

This project models the core of a hangman Discord bot, as a verified Dafny
model with proved properties. The bot keeps each gamemode of each Discord
server in a plain-text `key=value` config file, reloads configs in the
background when they change, assembles word lists from allow/deny files,
and plays hangman.

The modules follow the source files:

| module | file | models |
|---|---|---|
| `Strings` | `strings.dfy` | the ASCII subset of Python's `str` methods the core uses (`lower`, `upper`, `strip`, `split`, `join`, `isalpha`, `title` helpers) |
| `ParserUtil` | `parserutil.dfy` | `parserutil.py`: the string <-> value codecs of config entries and their round-trip laws |
| `ConfigFormat` | `configformat.dfy` | the line grammar of a config file, the block an entry appends to a new file, and the copy-and-replace rewrite of one entry |
| `ConfigStore` | `configstore.dfy` | the entries of a config as a value: `Entry.parse`, `parse_and_set`, listener notification, the reload loop, the default file |
| `FileSystem` | `filesystem.dfy` | files as line sequences with modification times; a write is always newer than everything before it |
| `Resources` | `resourcemanager.dfy` | the `ResourceManager` state machine (`reload`, `_reload`, `on_ready`) with its ready event and its task queue |
| `Configs` | `config.dfy` | the `Config` class of `resources/config/config.py`: its `Entry` objects, `_reload_inner`, `check_file_changes`, `get_option`, `set_value` and the write-back job |
| `GamemodeConfigs` | `gamemodeconfig.dfy` | the eight options of `GamemodeConfig` and the facts about its defaults |
| `WordLists` | `wordlist.dfy` | `WordListManager.reload_inner`: append, blacklist (`-`) and whitelist (`&`) lists folded left to right |
| `ServerManagers` | `servermanager.dfy` | `ServerManager`: name validation and escaping, `_prettify`, the directory walk, `load_defaults`, `new_gamemode`, the command choice lists |
| `Singleplayer` | `singleplayer.dfy` | `SingleplayerGame`: guess handling, the progress row, the end-of-game checks |
| `LegacyConfigs` | `legacyconfig.dfy` | the older root-level `config.py` engine and its `MainConfig` table, related to the newer engine |
| `Assessment` | `assessment.dfy` | the command-line hangman of `assessment.py`: the synchronous resource manager, `RandomWordProvider`, `Player.turn` |

Classes of the source whose fields change in place are Dafny classes:
- `Config`, `Config.Entry`, `ResourceManager` and `Event`;
- `ServerManager`, `WordListManager` and `SingleplayerGame`;
- `RandomWordProvider`, `Player`, and the legacy `Config` and `Entry`.

Their loops are Dafny loops, proved against specification functions on
values (`ConfigStore.Reload`, `ConfigFormat.SurgicalWrite`,
`WordLists.Fold`, `Singleplayer.Reveal`). Those functions carry the
properties: round trips, idempotence, "what a reload leaves in each entry",
and the membership of a word in a list.

Outside effects are parameters or state:
- A change listener is a number. Calling it appends a `Call` to a shared `Trace`, so the order of notifications is part of the state.
- The task handler is a queue of jobs (`ReloadJob`, `WriteJob`). `Event.wait()` runs queued jobs until the event is set.
- The directory walk (`rglob`), the list of default configs, the readable word-list files and console input are given as sequences and maps.
- The random choice of a word is an index parameter.

## Model

| member | source | states |
|---|---|---|
| `ParserUtil.ParseBoolSpec` | parserutil.py:93-96 | the bool parser never fails and yields true exactly for "true", "yes", "y", "1" after lower-casing and stripping; the result does not depend on case |
| `ParserUtil.ParseBoolExamples` | parserutil.py:93-99 | "YES" parses as true, "0" and "" as false |
| `ParserUtil.BoolRoundTrip` | parserutil.py:93-99 | `str(True)` and `str(False)` parse back to the same bool |
| `ParserUtil.NatToStringDigits` | parserutil.py:100 | the decimal text of a natural number is a digit run whose value is that number |
| `ParserUtil.NatRoundTrip` | parserutil.py:100 | `int(str(n)) == n` for every natural number |
| `ParserUtil.NegativeRoundTrip` | parserutil.py:100 | `int("-" + str(n)) == -n` for every positive n |
| `ParserUtil.IntRoundTrip` | parserutil.py:100 | `int(str(n)) == n` for every integer |
| `ParserUtil.EnumParseSpec` | parserutil.py:78-86 | an enum parse fails exactly when the upper-cased text is not a member name, and otherwise yields that member |
| `ParserUtil.ParseConforms` | parserutil.py:99-106 | every successful parse yields a value of the parser's kind that the parser could produce |
| `ParserUtil.RoundTrip` | parserutil.py:99-105 | for every value a parser can produce, parsing its stringified form gives the value back |
| `ParserUtil.ConformsIsImage` | parserutil.py:99-105 | the values that conform to a parser are exactly the results of its successful parses |
| `ParserUtil.StringIdentity` | parserutil.py:102 | STRING_PARSER is the identity in both directions |
| `ParserUtil.StringListText` | parserutil.py:104-105 | joining the split of a text gives the text back, and the empty text is the one-item list `[""]` |
| `ParserUtil.StringListItems` | parserutil.py:104-105 | splitting the join of a non-empty list of items without the separator gives the list back |
| `ParserUtil.StringListNoEscaping` | parserutil.py:104-105 | an item holding the separator comes back as two items: there is no escaping |
| `ParserUtil.EnumRoundTrip` | parserutil.py:78-90 | an enum member is written as its lower-case name and that text parses back to the member |
| `ConfigFormat.ClassifyLine` | resources/config/config.py:232-245 | a line is skipped exactly when it starts with `#` or is blank, is malformed exactly when otherwise it has no `=`, and is an assignment otherwise |
| `ConfigFormat.LastAssignment` | resources/config/config.py:232-252 | a file yields a text for a key exactly when some line assigns that key, and the text is one such line's value |
| `ConfigFormat.CommentLines` | resources/config/config.py:66-68 | one `# ` comment per line of the description, in order |
| `ConfigFormat.EntryBlock` | resources/config/config.py:66-70 | an appended entry is its description as comments, then `name=value`, then a blank line |
| `ConfigFormat.Rewritten` | resources/config/config.py:87-91 | a rewritten line keeps everything up to and including its first `=` |
| `ConfigFormat.TrailingBlank` | resources/config/config.py:93-96 | the count of whitespace-only lines at the end of the file, and no more |
| `ConfigFormat.Blanks` | resources/config/config.py:100-101 | the padding is that many empty lines |
| `ConfigFormat.CopyLines` | resources/config/config.py:80-97 | the copy has one line per line of the original |
| `ConfigFormat.CopyReplacing` | resources/config/config.py:72-104 | the copy loop, with its `found` flag and trailing-blank counter, produces exactly the surgical write of the entry, with the exact-key test of the first Findings row in place of the prefix test |
| `ConfigFormat.CopyLinesSnoc` | resources/config/config.py:80-96 | one more line copied: a line assigning the entry is rewritten, any other line is kept as it is |
| `ConfigFormat.AnyMatchSnoc` | resources/config/config.py:83-92 | the `found` flag is set exactly when some line so far assigns the entry |
| `ConfigFormat.TrailingBlankSnoc` | resources/config/config.py:93-96 | the trailing-blank counter grows on a blank line and drops to zero on any other |
| `ConfigFormat.AssignmentLine` | resources/config/config.py:243-245 | `name=text` reads back as an assignment of `text` (less one leading space) to `name` |
| `ConfigFormat.CommentNeverMatches` | resources/config/config.py:83-84 | a comment line never counts as an assignment of a well-formed key |
| `ConfigFormat.MatchesIsAssigns` | resources/config/config.py:83-84 | for a well-formed key, the exact-key test agrees with "the reload reads this line as an assignment of the key" |
| `ConfigFormat.RewrittenLine` | resources/config/config.py:87-91 | a rewritten line reads back as the new text for the same key |
| `ConfigFormat.EntryBlockReadBack` | resources/config/config.py:66-70 | an entry's block reads back as its value text and assigns no other key |
| `ConfigFormat.CopyLinesReadBack` | resources/config/config.py:80-97 | after the copy, the written key reads as the new text if it was present, and every other key reads as before |
| `ConfigFormat.ReadBack` | resources/config/config.py:72-104 | after writing `name=text` in place, a reload reads `text` for `name` and, for every other key, what it read before |
| `ConfigFormat.AppendedReadBack` | resources/config/config.py:98-104 | the same read-back when the key was absent and the assignment is appended |
| `ConfigFormat.TailReadBack` | resources/config/config.py:100-104 | the appended tail assigns only the written key |
| `ConfigFormat.CopyKeepsOthers` | resources/config/config.py:80-97 | a line not assigning the key is copied unchanged at the same position |
| `ConfigFormat.AppendPadding` | resources/config/config.py:93-104 | when the key was absent, the old file is kept as a prefix, padded to at least two trailing blank lines, followed by `name=text` and a blank line |
| `ConfigFormat.PrefixLine` | resources/config/config.py:83-84 | a line assigning a longer key that starts with the name passes the source's prefix test but not the exact-key test, and its rewrite keeps the longer key |
| `ConfigFormat.PrefixKeyClobbered` | resources/config/config.py:83-91 | with the prefix test, writing `name` into a file holding only `nameX=v` overwrites `nameX` and never records `name`; the exact test appends `name` and leaves `nameX` alone |
| `ConfigStore.Notify` | resources/config/config.py:147-152 | every listener, in registration order, hears `(old, new)` once |
| `ConfigStore.EntryParse` | resources/config/config.py:115-135 | a text equal to the stringified current value yields the current value; any success has the parser's type |
| `ConfigStore.ParseAndSet` | resources/config/config.py:137-145 | the value changes exactly when the parse succeeds with a different value; then the listeners are notified with the old and new value; otherwise nothing changes and nobody is notified |
| `ConfigStore.ApplyLine` | resources/config/config.py:232-252 | one line keeps the entries' names, parsers, defaults and listeners, and keeps the values typed |
| `ConfigStore.Reload` | resources/config/config.py:229-253 | reading a file keeps the schema of the entries and keeps the values typed |
| `ConfigStore.LastParsed` | resources/config/config.py:243-248 | the value of the last assignment the parser accepts is one the parser can produce |
| `ConfigStore.EntryParseAgrees` | resources/config/config.py:122-135 | with a conforming current value, the shortcut of `Entry.parse` agrees with the parser |
| `ConfigStore.ReloadValue` | resources/config/config.py:229-253 | after a reload, each entry holds the value of the last line assigning it that parses, or its old value if there is none |
| `ConfigStore.ReloadIdempotent` | resources/config/config.py:229-253 | reading the same file twice leaves every entry as the first reading left it |
| `ConfigStore.ReloadFixed` | resources/config/config.py:246-248 | a file none of whose lines changes the store leaves it unchanged and fires no listener |
| `ConfigStore.LastParsedSingle` | resources/config/config.py:243-248 | when a single line assigns a key, the reload ends with that line's value if it parses |
| `ConfigStore.LastParsedNone` | resources/config/config.py:246-252 | a key no line assigns keeps its value |
| `ConfigStore.ReloadQuiet` | resources/config/config.py:137-145 | when every key is assigned at most once, reading the file a second time changes nothing and fires no listener |
| `ConfigStore.ApplyLineValue` | resources/config/config.py:232-248 | one line sets an entry to the value its text parses to when it assigns that entry, and otherwise keeps the entry's value |
| `ConfigStore.ApplyChangingLine` | resources/config/config.py:137-145 | a line whose text parses to a new value stores it and notifies the entry's listeners with the old and new value |
| `ConfigStore.ApplyOwnLine` | resources/config/config.py:137-145 | a line assigning an entry the text of its own value changes nothing and notifies nobody |
| `ConfigStore.IntAssignment` | resources/config/config.py:243-248 | `key=n` for an integer entry holding another value sets it to n and notifies its listeners |
| `ConfigStore.DuplicateKeyRefires` | resources/config/config.py:232-248 | a file assigning a key twice ends with the second value, and every further reload notifies the listeners twice (second to first, then back) |
| `ConfigStore.ResetAll` | resources/config/config.py:154-156 | every entry back at its default, nothing else changed |
| `ConfigStore.ResetSome` | resources/config/config.py:222-225 | the entries reset so far hold their defaults, the others their values |
| `ConfigStore.DefaultFileLines` | resources/config/config.py:222-225 | every line of the default file is a comment, a blank line or an entry's default assignment |
| `ConfigStore.DefaultFileReadsBack` | resources/config/config.py:218-227 | reading the freshly written default file back into the reset entries changes nothing and fires no listener |
| `FileSystem.Disk.Write` | resources/config/config.py:105-110 | a write replaces the file's lines and makes it newer than every other file |
| `FileSystem.Disk.MakeDir` | resources/servermanager.py:372-373 | `mkdir` adds the directory and touches no file |
| `Resources.Event.Set` | resources/resourcemanager.py:65 | the event is set |
| `Resources.Event.Clear` | resources/resourcemanager.py:52 | the event is cleared |
| `Resources.ResourceManager.constructor` | resources/resourcemanager.py:30-40 | a new manager is uninitialised, its event unset, nothing queued |
| `Resources.ResourceManager.Queue` | resources/resourcemanager.py:53-54 | the job goes to the end of the task queue |
| `Resources.ResourceManager.TakeJob` | resources/resourcemanager.py:57-59 | the worker takes the oldest pending job |
| `Resources.ResourceManager.Reload` | resources/resourcemanager.py:42-55 | unless a reload is under way: the manager becomes initialising, the event is cleared and one reload job is queued; during a reload nothing changes; the same event is returned either way |
| `Resources.ResourceManager.CompleteReload` | resources/resourcemanager.py:57-71 | a reload that finishes while initialising makes the manager ready and sets the event; any other state is left as it is |
| `Resources.ResourceManager.OnReady` | resources/resourcemanager.py:83-87 | the first call starts a reload; later calls change nothing; the ready event is returned |
| `Configs.Entry.constructor` | resources/config/config.py:35-45 | a new entry holds its default and has no listeners |
| `Configs.Entry.WhenChanged` | resources/config/config.py:47-55 | the listener is registered after those already there |
| `Configs.Entry.SetValue` | resources/config/config.py:147-152 | the value is replaced, then every listener hears `(old, new)` in order |
| `Configs.Entry.Reset` | resources/config/config.py:154-156 | back to the default, notifying every listener even if the value already was the default |
| `Configs.Entry.ParseAndSet` | resources/config/config.py:137-145 | the entry and the trace change exactly as `ConfigStore.ParseAndSet` says |
| `Configs.Entry.WriteInPlace` | resources/config/config.py:71-110 | an existing file becomes its surgical write with the entry's value text, using the exact-key test of the first Findings row; a missing file is left missing |
| `Configs.Config.constructor` | resources/config/config.py:158-172 | a new config has no options, has never read its file, and its manager is uninitialised |
| `Configs.Config.AddConfigOption` | resources/config/config.py:203-213 | a new entry is stored under its name |
| `Configs.Config.AddEntry` | resources/config/config.py:204-206 | an existing entry object is stored under its name |
| `Configs.Config.Reload` | resources/resourcemanager.py:42-55 | the inherited `reload`: initialising afterwards; a reload job is queued and the event cleared unless one was under way; the options are untouched until the job runs |
| `Configs.Config.ReloadInner` | resources/config/config.py:215-253 | with no file: every entry is reset, the default file is written and the listener calls are those of the resets; with a file: the entries end as `ConfigStore.Reload` of its lines, with that function's listener calls; either way the modification time read is recorded |
| `Configs.Config.CreateDefaultFile` | resources/config/config.py:218-227 | the missing-file branch: reset entries, the default file written in registration order, its time recorded |
| `Configs.Config.RecordRead` | resources/config/config.py:253 | the last-read time is the file's modification time |
| `Configs.Config.ResetEntries` | resources/config/config.py:222-225 | the loop resets every entry in registration order and yields the default file's lines |
| `Configs.Config.ResetNext` | resources/config/config.py:223-225 | one pass of that loop keeps its invariant |
| `Configs.Config.ResetStep` | resources/config/config.py:224-225 | one entry reset and its block of the new file |
| `Configs.Config.ReadFile` | resources/config/config.py:229-253 | the reading loop leaves the entries and the trace as `ConfigStore.Reload` says, and records the time |
| `Configs.Config.ApplyLineStep` | resources/config/config.py:232-252 | one line of the reading loop, as `ConfigStore.ApplyLine` says |
| `Configs.Config.ParseAndSetEntry` | resources/config/config.py:246-248 | `parse_and_set` on the named entry changes that slot and the trace as `ConfigStore.ParseAndSet` says, and no other slot |
| `Configs.Config.CheckFileChanges` | resources/config/config.py:255-261 | a missing file or a modification time other than the last read starts a reload and returns the manager's event; otherwise returns the set null event and changes nothing |
| `Configs.Config.Wait` | resources/config/config.py:272-276 | waiting runs queued jobs until the event is set or nothing is left, without adding work |
| `Configs.Config.RunNextJob` | resources/resourcemanager.py:57-71 | running the oldest job reduces the work left; a reload job re-reads or creates the file and makes an initialising manager ready |
| `Configs.Config.TakeJob` | resources/resourcemanager.py:53-54 | the oldest job leaves the queue, and a write job names a registered option |
| `Configs.Config.RunReloadJob` | resources/resourcemanager.py:57-71 | a reload job re-reads or creates the file, records its time and makes an initialising manager ready |
| `Configs.Config.CompleteReload` | resources/resourcemanager.py:60-71 | an initialising manager becomes ready with its event set; any other state is kept |
| `Configs.WrittenReadsBack` | resources/config/config.py:72-104 | once an option is written in place with the corrected exact-key write, the file assigns that option its new text last, whenever the text survives the format |
| `Configs.Config.SetValueUpdateFile` | resources/config/config.py:298-306 | after the write-back job, done with the corrected exact-key write of the first Findings row, the file assigns the option's current text last and the time of that write is recorded |
| `Configs.Config.WriteOption` | resources/config/config.py:304-306 | the locked part of the write-back: the option written in place with the corrected exact-key write of the first Findings row, and the time recorded |
| `Configs.Config.GetOption` | resources/config/config.py:263-277 | the entry registered under the key, or `None` where the source raises `KeyError` |
| `Configs.Config.GetValue` | resources/config/config.py:279-288 | the value of that entry, present exactly when the key is registered |
| `Configs.Config.SetValue` | resources/config/config.py:290-296 | the entry holds the new value, its listeners were told about it in order, and a write-back job is queued last |
| `Configs.Config.NotifyThenQueue` | resources/config/config.py:293-296 | the entry's `_set_value` notifies its listeners in order, then one write job for the option is queued last |
| `Configs.NotifyEndsTrace` | resources/config/config.py:147-153 | after `_set_value` the last calls of the trace are the entry's listeners, in order, each hearing the new value |
| `GamemodeConfigs.SnakeCaseKey` | resources/config/gamemodeconfig.py:47-54 | a snake-case option name is a key the file format can carry |
| `GamemodeConfigs.SchemaKeys` | resources/config/gamemodeconfig.py:47-54 | the eight option names are distinct and well-formed keys |
| `GamemodeConfigs.SchemaNames` | resources/config/gamemodeconfig.py:47-54 | the declarations register the eight option names in this order |
| `GamemodeConfigs.OptionNamesDistinct` | resources/config/gamemodeconfig.py:47-54 | no two option names are equal |
| `GamemodeConfigs.OptionNamesWellFormed` | resources/config/gamemodeconfig.py:47-54 | every option name is a key the file format can carry |
| `GamemodeConfigs.SchemaDefaults` | resources/config/gamemodeconfig.py:56-108 | every default is a value its parser produces, so its text parses back to it |
| `GamemodeConfigs.DefaultWordListSegments` | resources/config/gamemodeconfig.py:81-90 | the default word-list specification is two lists to read and then two `-` lists to subtract |
| `GamemodeConfigs.AddConfigOptions` | resources/config/gamemodeconfig.py:56-108 | the config holds exactly the eight options, registered in order with their defaults |
| `GamemodeConfigs.RegisterAll` | resources/config/gamemodeconfig.py:56-108 | registering distinct, well-typed declarations in turn gives exactly those entries |
| `GamemodeConfigs.Register` | resources/config/gamemodeconfig.py:57-62 | one `_add_config_option` call extends the registered declarations by one |
| `GamemodeConfigs.StoreOfSnoc` | resources/config/config.py:203-213 | registering a fresh declaration adds its name last and its slot to the store |
| `GamemodeConfigs.NewGamemodeConfig` | resources/config/config.py:158-174 | a new gamemode config has its eight options, has never read its file, and has one reload queued |
| `GamemodeConfigs.StoreOfReadsBack` | resources/config/config.py:218-253 | a freshly registered store is already reset, and its default file reads back to it silently |
| `GamemodeConfigs.DefaultFileIsStable` | resources/config/gamemodeconfig.py:56-108 | the default file of a new gamemode reads back to its defaults and fires no listener |
| `GamemodeConfigs.SchemaTexts` | resources/config/gamemodeconfig.py:56-108 | every default has its parser's type and a text that does not start with a space |
| `WordLists.Classify` | resources/wordlistmanager.py:31-37 | `-` marks a blacklist, `&` a whitelist, anything else an appended list; the prefix character is removed |
| `WordLists.ClassifyRoundTrip` | resources/wordlistmanager.py:31-37 | a specification is the prefix of its kind followed by its path |
| `WordLists.SpecTextRoundTrip` | resources/wordlistmanager.py:31-37 | a kind and a path written as a specification classify back to themselves, unless an appended path itself starts with a prefix character |
| `WordLists.AlphaWords` | resources/wordlistmanager.py:77-85 | an appended file adds only cleaned lines |
| `WordLists.StepMembership` | resources/wordlistmanager.py:43-85 | after one file, a word is present exactly when that file adds it, or it was present and the file keeps it |
| `WordLists.FoldMembership` | resources/wordlistmanager.py:22-88 | a word is in the list exactly when some appended file added it and every later blacklist spared it and every later whitelist named it |
| `WordLists.FoldMemberAdded` | resources/wordlistmanager.py:22-85 | every word of the list was added by some file and kept after it |
| `WordLists.AddedIsMember` | resources/wordlistmanager.py:22-85 | a word added and kept afterwards is in the list |
| `WordLists.FoldWordsAreWords` | resources/wordlistmanager.py:77-85 | every word of the list is alphabetic and lower-case |
| `WordLists.NoAppendNoWords` | resources/wordlistmanager.py:22-85 | with no existing file to append, the list is empty |
| `WordLists.LeadingWhitelist` | resources/wordlistmanager.py:69-76 | a whitelist first leaves nothing, as the fold starts empty |
| `WordLists.MissingFileSkipped` | resources/wordlistmanager.py:39-42 | a specification whose file does not exist changes nothing |
| `WordLists.BlacklistRemoves` | resources/wordlistmanager.py:45-68 | outside debug runs, an existing blacklist removes every word it names and keeps every other word |
| `WordLists.StepAsWrittenDebug` | resources/wordlistmanager.py:54-68 | as written, in a debug run an existing blacklist removes nothing, because the logging read leaves no line for the subtraction; other segments step as usual |
| `WordLists.DebugBlacklistIgnored` | resources/wordlistmanager.py:54-68 | the word `cat` survives a debug-run blacklist naming `cat`, which the intended step removes |
| `WordLists.BlacklistThenAppend` | resources/wordlistmanager.py:65-85 | a blacklist removes only what is already there: a word appended after it stays |
| `WordLists.Freeze` | resources/wordlistmanager.py:88 | `tuple(set)`: each word of the set exactly once |
| `WordLists.WordListManager.constructor` | resources/wordlistmanager.py:16-20 | the list is empty until the first load |
| `WordLists.WordListManager.ReloadInner` | resources/wordlistmanager.py:22-88 | in a run without debug logging, the loop leaves exactly the words of the fold, each once |
| `ServerManagers.AllSameCaseMeaning` | resources/servermanager.py:27-28 | a name is "all one case" exactly when it has no upper-case letter or no lower-case letter |
| `ServerManagers.Title` | resources/servermanager.py:36-38 | `str.title`: a letter after a non-letter is upper-cased, a letter after a letter lower-cased |
| `ServerManagers.TitleIdempotent` | resources/servermanager.py:31-48 | title-casing twice is title-casing once |
| `ServerManagers.CamelWords` | resources/servermanager.py:40-47 | the camel-case loop splits the name into words that concatenate back to it, each later word starting at its only upper-case letter, and their space-joined form is the name with a space before every inner capital |
| `ServerManagers.SpacedCamelSnoc` | resources/servermanager.py:40-48 | one more character of the name adds a space before it exactly when it is an upper-case letter after the first character |
| `ServerManagers.CamelNewWord` | resources/servermanager.py:43-45 | an upper-case letter or the first character starts a new word, and the loop's invariant still holds |
| `ServerManagers.NewWordSplit` | resources/servermanager.py:43-45 | a word started at an upper-case letter or at the first character keeps the split valid |
| `ServerManagers.NewWordJoin` | resources/servermanager.py:43-45 | a word started that way adds a space then the letter to the joined text, or just the letter at the start |
| `ServerManagers.CamelSameWord` | resources/servermanager.py:46-47 | any other character extends the last word, and the loop's invariant still holds |
| `ServerManagers.SameWordSplit` | resources/servermanager.py:46-47 | extending the last word with a character that is not upper case keeps the split valid |
| `ServerManagers.SameWordJoin` | resources/servermanager.py:46-47 | extending the last word adds just that character to the joined text |
| `ServerManagers.ConcatSnoc` | resources/servermanager.py:45 | appending a word appends it to the concatenation |
| `ServerManagers.ConcatExtendLast` | resources/servermanager.py:47 | extending the last word extends the concatenation by that character |
| `ServerManagers.Prettify` | resources/servermanager.py:31-48 | snake case becomes spaced title case; a single-case name is title-cased; camel case is spaced at the capitals and title-cased |
| `ServerManagers.DisplayString` | resources/servermanager.py:51-58 | `_stringify` has a defined result for every value except lists and word lists |
| `ServerManagers.DisplayIsFileText` | resources/servermanager.py:51-58 | the editor shows a scalar value exactly as the config file stores it |
| `ServerManagers.GetNameError` | resources/servermanager.py:329-348 | no error exactly for a valid name; otherwise the first failing check in order: empty, longer than 50, bad first character, then the set of bad characters |
| `ServerManagers.EscapedName` | resources/servermanager.py:350-353 | escaping keeps the length |
| `ServerManagers.EscapedIdempotent` | resources/servermanager.py:350-353 | escaping an escaped name changes nothing |
| `ServerManagers.ValidNameEscapes` | resources/servermanager.py:329-353 | a valid name escapes to lower-case letters, digits, `-` and `_`, starting with a letter |
| `ServerManagers.EscapedCollision` | resources/servermanager.py:350-353 | two names escape alike exactly when they agree character by character up to case and space versus `-` |
| `ServerManagers.ExtendSpec` | resources/servermanager.py:357-366 | assigning keys never removes or reorders a key, adds exactly the new ones, and keeps keys distinct |
| `ServerManagers.FirstPathsKeys` | resources/servermanager.py:357-363 | the walk creates a config for each stem found and for no other |
| `ServerManagers.FirstPathsFirst` | resources/servermanager.py:357-363 | the config for a stem is for the first file the walk finds with it |
| `ServerManagers.WalkStep` | resources/servermanager.py:357-366 | one more file of the walk grows the key order and the created configs as the loop does |
| `ServerManagers.CopyPath` | resources/servermanager.py:375-376 | a default is copied under the server's directory with its stem and suffix |
| `ServerManagers.CopiesLast` | resources/servermanager.py:374-379 | after copying the defaults, a stem maps to the copy of the last default with that stem |
| `ServerManagers.CopiesKeys` | resources/servermanager.py:374-379 | the copies have no stem but the defaults' stems |
| `ServerManagers.ServerManager.constructor` | resources/servermanager.py:262-270 | a new server has no gamemode, empty choice lists and an uninitialised manager |
| `ServerManagers.ServerManager.SyncCommandChoices` | resources/servermanager.py:383-387 | both commands offer the gamemode names in dictionary order |
| `ServerManagers.ServerManager.Assign` | resources/servermanager.py:360-363 | dictionary assignment: a new key goes last, an existing key keeps its place |
| `ServerManagers.ServerManager.CreateConfig` | resources/servermanager.py:362-363 | a new config object for the file |
| `ServerManagers.ServerManager.ReloadInner` | resources/servermanager.py:355-367 | existing gamemodes keep their configs; each new stem gets a new config for the first file with that stem; the names grow as the dictionary does; both choice lists are synced |
| `ServerManagers.ServerManager.ReloadNext` | resources/servermanager.py:357-366 | one file of the walk: a known stem changes nothing; a new one gets a new config |
| `ServerManagers.WalkNew` | resources/servermanager.py:360-363 | a file with a new stem adds a config for that file under its stem, last in the key order |
| `ServerManagers.WalkKeep` | resources/servermanager.py:364-366 | a file whose stem is already a gamemode leaves the dictionary and its order as they were |
| `ServerManagers.ServerManager.CopyDefault` | resources/servermanager.py:375-378 | `shutil.copy` puts the default's lines at the copy path, and the new config is for the copy |
| `ServerManagers.ServerManager.LoadDefaults` | resources/servermanager.py:369-381 | when ready with an existing directory: nothing changes; otherwise the directory exists, every default is copied, each stem's config is for the copy of the last default with it, the choice lists are synced and the manager is ready |
| `ServerManagers.ServerManager.LoadNext` | resources/servermanager.py:374-379 | one default of that loop keeps its invariant |
| `ServerManagers.ServerManager.CopyDefaults` | resources/servermanager.py:374-379 | the copying loop ends with every default copied and assigned under its stem, in order |
| `ServerManagers.LoadStep` | resources/servermanager.py:374-379 | copying one more default and assigning its config under its stem extends the key order by that stem, keeps the untouched gamemodes and records the copy |
| `ServerManagers.LoadDone` | resources/servermanager.py:374-379 | when the loop has seen every default, the key order is extended by all their stems and every stem's config is for the copy of the last default with it |
| `ServerManagers.ServerManager.CreateNamed` | resources/servermanager.py:494-496 | a new config whose display name holds the name as typed |
| `ServerManagers.ServerManager.NewGamemode` | resources/servermanager.py:467-499 | an invalid name is refused with its error and a taken escaped name is refused, changing nothing; otherwise a config at `<escaped>.txt` is added last with the typed display name, and the bot is asked once to resync its commands |
| `ServerManagers.DisplayNameIsString` | resources/config/gamemodeconfig.py:57-62 | every gamemode config has a `display_name` option read as a plain string |
| `Singleplayer.Reveal` | games/singleplayer.py:74-77 | every position holding the letter shows it in upper case; every other position is unchanged |
| `Singleplayer.RevealAll` | games/singleplayer.py:102-107 | revealing a sequence keeps the row's length |
| `Singleplayer.RevealAllShows` | games/singleplayer.py:102-107 | after revealing a sequence, a position shows its letter exactly when the letter occurs in the sequence |
| `Singleplayer.FullRowIsWord` | games/singleplayer.py:47-48 | a row with no hidden cell spells the word in upper case |
| `Singleplayer.RevealFits` | games/singleplayer.py:74-77 | revealing keeps each cell hidden or showing its own letter |
| `Singleplayer.EndChecksAsWritten` | games/singleplayer.py:45-53 | as written, the end checks raise exactly when the word is complete or no life is left |
| `Singleplayer.WinningGuessRaises` | games/singleplayer.py:47-49 | guessing the one letter of the word "a" reaches the raising branch |
| `Singleplayer.SingleplayerGame.constructor` | games/singleplayer.py:22-35 | a new game has nothing guessed and every letter hidden |
| `Singleplayer.SingleplayerGame.RevealLetter` | games/singleplayer.py:74-77 | the index loop reveals exactly the positions of the letter |
| `Singleplayer.Guess` | games/singleplayer.py:55-114 | what a guess does to the game: lives never grow, the guess is counted exactly when it changes the game and at most once, and the row only reveals letters of the word, never hiding a shown one |
| `Singleplayer.SingleplayerGame.HandleGuess` | games/singleplayer.py:55-114 | non-letters, repeated letters and guesses longer than the word change nothing. A new letter counts a guess, is remembered, and reveals its positions or costs one life. The whole word reveals everything. A sequence found in the word reveals each of its letters. A sequence not found costs one life per character. The new fields and the reply are those of `Singleplayer.Guess` |
| `Singleplayer.SingleplayerGame.UpdateInner` | games/singleplayer.py:40-53 | the message's text, lower-cased and stripped, is handled as `Singleplayer.Guess` says: same reply, guess count, guessed letters and row, with the lives clamped at zero; the game is complete exactly when it was before, the word is revealed, or no life is left; a row with nothing hidden is the word |
| `LegacyConfigs.EntryParseLegacy` | config.py:50-59 | a failed parse leaves the entry and reports failure; a successful one stores the parsed value and returns it; only the value ever changes |
| `LegacyConfigs.ParseOwnText` | config.py:50-59 | parsing an entry's own text returns its value and changes nothing |
| `LegacyConfigs.EntryParseLegacyAgrees` | config.py:50-59 | the legacy parse leaves the entry in the same state as the newer `parse_and_set` |
| `LegacyConfigs.LoadLine` | config.py:101-119 | one line keeps the schema and the types |
| `LegacyConfigs.Load` | config.py:94-120 | reading a file keeps the schema and the types |
| `LegacyConfigs.LoadSnoc` | config.py:101-119 | loading one more line is loading the lines before it, then that line |
| `LegacyConfigs.LoadAgrees` | config.py:94-120 | the legacy file reading leaves the entries exactly as the newer reload does |
| `LegacyConfigs.LoadValue` | config.py:101-119 | each entry ends with the value of the last parsable line assigning it, else its old value |
| `LegacyConfigs.LoadWrittenFile` | config.py:66-76 | entries at their defaults read their own default file back unchanged |
| `LegacyConfigs.MainSchemaFacts` | config.py:135-143 | the three options of `MainConfig` have distinct, well-formed names and defaults that conform to their parsers and survive the format |
| `LegacyConfigs.MainKeys` | config.py:136-138 | the three option names of `MainConfig` are distinct, well-formed keys |
| `LegacyConfigs.MainWordListsConform` | config.py:141 | the default word lists are a list value the list parser can produce: non-empty, no item holding the separator |
| `LegacyConfigs.MainListText` | config.py:141 | the written text of the default word lists does not start with a space |
| `LegacyConfigs.MainDefaultsReadBack` | config.py:135-143 | a fresh `MainConfig` reads its default file back unchanged |
| `LegacyConfigs.Entry.constructor` | config.py:40-45 | a new entry holds its default |
| `LegacyConfigs.Entry.Parse` | config.py:50-59 | the entry and the result change as `EntryParseLegacy` says |
| `LegacyConfigs.Config.constructor` | config.py:61-76 | with no file: the defaults are written in registration order and the time recorded; with a file: the entries are its load over the defaults and the file is untouched |
| `LegacyConfigs.Config.Open` | config.py:66-76 | the branch of the constructor after registration, with the same two outcomes |
| `LegacyConfigs.Config.AddConfigOption` | config.py:82-92 | a new entry replaces any entry under that name; a new name goes last |
| `LegacyConfigs.Config.Insert` | config.py:92 | the dictionary assignment: a new key goes last, an existing key keeps its place, and only that slot changes |
| `LegacyConfigs.Config.AddConfigOptions` | config.py:140-143 | the entries are exactly the declarations, in order |
| `LegacyConfigs.Config.AddNext` | config.py:140-143 | one declaration of that loop is registered under its name, last in the order, holding its default |
| `LegacyConfigs.Config.CreateDefaultFile` | config.py:67-72 | the file holds one block per entry in registration order and its time is recorded |
| `LegacyConfigs.Config.RecordRead` | config.py:120 | only the last-read time changes |
| `LegacyConfigs.Config.DefaultLines` | config.py:69-71 | the writing loop yields exactly the default file |
| `LegacyConfigs.Config.LoadFromFile` | config.py:94-120 | the entries end as `Load` of the file and the time is recorded |
| `LegacyConfigs.Config.LoadLines` | config.py:101-119 | the loop leaves the entries as `Load` of the lines |
| `LegacyConfigs.Config.LoadNext` | config.py:101-119 | one line of that loop keeps its invariant |
| `LegacyConfigs.Config.ParseEntry` | config.py:114-116 | only the named entry parses the text |
| `LegacyConfigs.Config.CheckFileChanges` | config.py:122-128 | the file is re-read exactly when it is strictly newer than the last read; otherwise nothing changes |
| `LegacyConfigs.Config.GetOption` | config.py:130-133 | after the change check, the value under the key, or `None` where the source raises |
| `Assessment.FilePath` | assessment.py:73-76 | a blacklist specification is `-` followed by its file; any other is its file |
| `Assessment.LongWords` | assessment.py:78-84 | a list file adds only cleaned lines |
| `Assessment.StepMembership` | assessment.py:77-84 | after one file, a word is present exactly when the file is a list that adds it, or it was present and the file does not blacklist it |
| `Assessment.FoldMembership` | assessment.py:68-85 | a word is in the list exactly when some list file added it and no later blacklist named it |
| `Assessment.FoldMemberAdded` | assessment.py:68-85 | every word of the list was added and kept |
| `Assessment.AddedIsMember` | assessment.py:68-85 | a word added and kept is in the list |
| `Assessment.FoldWords` | assessment.py:78-84 | every word is longer than three letters, alphabetic and lower-case |
| `Assessment.FoldWithinNewer` | assessment.py:68-85 | on specifications without whitelists, the older loader's list is contained in the newer word-list manager's |
| `Assessment.RandomWordProvider.constructor` | assessment.py:62-66 | nothing loaded yet |
| `Assessment.RandomWordProvider.ReadList` | assessment.py:77-84 | the inner loop discards every cleaned line of a blacklist, or adds the long alphabetic ones |
| `Assessment.RandomWordProvider.ReloadInner` | assessment.py:68-85 | the words are exactly the fold's, each once |
| `Assessment.RandomWordProvider.Reload` | assessment.py:23-26 | ready afterwards, with exactly the fold's words |
| `Assessment.RandomWordProvider.HookReady` | assessment.py:32-42 | loads the first time; once loaded, changes nothing |
| `Assessment.RandomWordProvider.GetWord` | assessment.py:87-91 | none exactly when the list is empty, where the source raises; otherwise a word of the list, longer than three letters |
| `Assessment.Decide` | assessment.py:107-114 | an empty line ends the turn. A letter is played exactly when the stripped line is one letter not guessed before. Everything else re-prompts |
| `Assessment.Reprompts` | assessment.py:107-114 | the leading lines that only re-prompt, and the first that does not |
| `Assessment.Player.constructor` | assessment.py:99-104 | every letter hidden, nothing guessed, playing |
| `Assessment.Player.Turn` | assessment.py:105-128 | the turn reads past the re-prompting lines; at the first other line it either ends with nothing changed or plays that letter |
| `Assessment.Player.PlayLetter` | assessment.py:115-127 | the letter is remembered. If present it is revealed, and the player wins when nothing is hidden. If absent it costs a life, and the player dies at zero |

## Left out

- Case mapping, whitespace and `isalpha` cover ASCII only. Python's Unicode rules are not modelled, including `upper()` turning one character into several.
- Floating point: FLOAT_PARSER (`parserutil.py:101`, `config.py:35`) and PATH_PARSER are not modelled; no option uses them.
- WORD_LIST_PARSER is not modelled as a `ComplexParser`. The `word_list_paths` option keeps its pipe-separated path specification as text. The source builds a `WordListManager` from it, and the call at `resources/config/gamemodeconfig.py:85-89` passes two arguments where `resources/wordlistmanager.py:16` takes one. As written, every `GamemodeConfig()` therefore raises `TypeError`, and `WordListManager.__init__` would in any case call `ResourceManager.__init__` (`resources/resourcemanager.py:30`) without its `task_handler`; `GamemodeConfigs.NewGamemodeConfig` and the `ServerManager` paths that build gamemode configs model the evidently intended construction, not what the code does.
- The word-list manager's path provider is a list of specifications rather than a callable.
- Files are sequences of newline-terminated lines. A last line without its newline, and values holding a newline, are not modelled.
- Values whose text starts with a space are excluded from the read-back lemmas (`NoLeadingSpace`), because the reader drops one leading space.
- Concurrency: the asyncio lock, threads and real modification times are not modelled. Jobs run one at a time from the queue. The temp-file rename retry loop (`resources/config/config.py:105-110`) is one atomic write.
- Configs.Config.Wait: `Event.wait()` blocks until a worker sets the event. Here it runs the queued jobs itself until the event is set or the queue is empty.
- Configs.Entry.WriteInPlace: a file that vanished between the check and the write leaves the file system unchanged. The source would raise.
- Configs.Config.SetValue: states the listener, option and new value of the last notifications, not their old value. `get_option(key, True)` may first run a reload that fires other listeners.
- Configs.Config.GetOption: does not state the entries' values after the change check and wait; `Configs.Config.ReloadInner` states what a reload does.
- Callers' values must have their parser's type (`HasType` requirements); the source does not check what callers pass to `set_value`.
- The Discord user interface is not modelled: views, modals, embeds, buttons and replies.
- `ServerManager.play`, `edit_gamemode`, `update`, `add_command_to` and `remove_command_from` are not modelled.
- ServerManagers.DisplayString: `_stringify` of list values is left unspecified.
- ServerManagers.ServerManager.CreateConfig: states only that the config is new and for the given file. The options and first reload of a new gamemode config are stated by `GamemodeConfigs.NewGamemodeConfig`.
- ServerManagers.ServerManager.ReloadInner: the `check_file_changes().wait()` on configs already known is not modelled.
- ServerManagers.ServerManager.LoadDefaults: states that each copy exists, not its contents; `ServerManagers.ServerManager.CopyDefault` states the contents of one copy.
- The `sync_discord_commands` callback is a counter of calls.
- WordLists.WordListManager.ReloadInner: models runs without `--debug` only. In a debug run the logging branch (`resources/wordlistmanager.py:54-64`) reads the blacklist file first, so the subtraction at lines 65-68 reads no line and every `-` list is ignored (see Findings). All logging output is left out.
- ConfigFormat.CopyReplacing: implements the corrected exact-key write of the first Findings row, not the prefix test `line.strip().startswith(name)` of `resources/config/config.py:84`. A line such as `guessersx=1` is kept and `guessers` is appended, where the source rewrites that line.
- Configs.Entry.WriteInPlace: writes with the corrected exact-key test of the first Findings row, not the source's prefix test.
- Configs.Config.WriteOption: writes with the corrected exact-key test of the first Findings row, not the source's prefix test.
- Configs.Config.SetValueUpdateFile: its read-back holds for the corrected exact-key write of the first Findings row. With the source's prefix test the option can be left unwritten, as `ConfigFormat.PrefixKeyClobbered` shows.
- ConfigStore.DuplicateKeyRefires shows a limit of reload idempotence. A key assigned twice in one file notifies its listeners again on every reload, although the final value is the same.
- `games/game.py` is not part of this model: `Game.update`'s check of `GuessPublicity` and `Game.run`'s thread creation. `SingleplayerGame.run` and `_on_word_list_change` are left out with it.
- Singleplayer.SingleplayerGame.constructor: takes the chosen word and the configured lives as parameters, instead of a config and a random provider.
- Singleplayer.SingleplayerGame.UpdateInner: the game's `state` is the boolean `complete` (see Findings).
- LegacyConfigs.Config.constructor: requires distinct option names. Re-registering a name is modelled by `LegacyConfigs.Config.AddConfigOption`.
- LegacyConfigs.Config.GetOption: a missing file yields `None`; the source's `os.stat` would raise.
- Assessment.RandomWordProvider.ReloadInner: requires every listed file to exist. The source's `open` raises and leaves the provider initialising; that path is not modelled.
- Assessment.RandomWordProvider.HookReady: the busy-wait while initialising cannot happen in the synchronous loader and is excluded by its invariant.
- Assessment.RandomWordProvider.GetWord: the random choice is an index parameter. The `removesuffix("\n")` cannot change a list word, which is alphabetic.
- Assessment.Player.Turn: when the console lines run out, the turn ends with nothing played; the source's `input` would raise `EOFError`.
- Printing, `SingleplayerGame.run` of `assessment.py` and the module-level launch (`assessment.py:143-159`) are not modelled. `Game.__init__` there reads two options with `get_option` and builds the provider and player from them.

## Findings

| source | as written | input that shows it | evidently intended | confidence | as-written member | corrected member |
|---|---|---|---|---|---|---|
| resources/config/config.py:83-84 | writing an entry in place rewrites every line whose stripped text starts with the entry's name and holds an `=` | writing `guessers` into a file whose only line is `guessersx=1`: that line becomes `guessersx=<value>`, and `guessers` is never written | rewrite only lines whose key, the stripped text before the first `=`, equals the name, and append the entry otherwise | high, not executed | `ConfigFormat.PrefixKeyClobbered` | `ConfigFormat.ReadBack` |
| games/singleplayer.py:45-53 | the end checks assign `Game.State.COMPLETE`, but `Game` (games/game.py:12-52) declares no `State` | word "a", guess "a": the row has no `_` left, so reaching line 49 raises `AttributeError`, as does losing the last life at line 53 | mark the game complete when the word is revealed or no life is left | high, not executed | `Singleplayer.WinningGuessRaises` | `Singleplayer.SingleplayerGame.UpdateInner` |
| resources/wordlistmanager.py:54-68 | with debug logging on, the blacklist branch calls `file.readlines()` for the log and again for the subtraction; the second call returns no line | run with `--debug`, a word list `words.txt` holding `cat` followed by the blacklist `-b.txt` holding `cat`: `cat` stays in the list | a blacklist removes the words it names whether or not debug logging is on | high, not executed | `WordLists.DebugBlacklistIgnored` | `WordLists.BlacklistRemoves` |
