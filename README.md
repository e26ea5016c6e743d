# argp, modelled in Dafny

argp is a Go library that parses command-line arguments. A program declares the variables
argp fills in one of two ways:
- by calls on a parser: `AddOpt` for options `-s`/`--long`, `AddVal` for positional
  arguments, `AddRest` for the remaining arguments and `AddCmd` for sub-commands;
- or through the field tags of a command struct, given to `NewCmd`.

`parse` then reads the tokens of the command line:
1. It routes to a sub-command.
2. It sets the defaults.
3. It reads long options `--name[.index...][=value]` and bundles of short options `-abc5`.
4. It scans the positional arguments into the arguments by position.
5. It checks for missing arguments and hands what is left to the rest binding.

Values are read by `ScanVar`:
- scalars take one token;
- arrays, slices, maps and structs are written as bracket groups (`[a b]`, `{k:v}`, `{x y}`)
  that may span several tokens, and `truncEnd` finds where a group ends;
- slices also take the comma form `a,b,c`.

Three option types open a named source on such a group, written as `type:[...]`:
- `List`: an inline list;
- `Dict`: a static text or an inline map;
- `Table`: a static text, an inline map, or an SQLite/MySQL database named by a
  configuration file.

`Count` is an option that counts how often it is given. `UnmarshalConfig` reads
`key = value` lines into the fields of a struct.

## How the model is organised

Go's reflection is replaced by two datatypes in module `Kinds`:
- `Kind`: the shape of a destination (string, bool, sized integers, arrays, slices, maps,
  structs, the `Count` scanner, and one kind for every unsupported type);
- `Value`: its contents.

`ScanVar` becomes the function `Scanning.Scan(kind, old value, tokens)`. It returns the
destination's new value, and either the number of tokens consumed or an error. On failure it
keeps the map entries and struct fields that Go had already written.

Module by module:
- **`Tokens`**: `truncEnd`, as the function `Bracketed` and as the method `TruncEnd` that
  keeps Go's loop over levels.
- **`Registry`**: the bindings (`Var`), the `find*` lookups, and the registration rules.
  Those rules are the invariant `Registered` that every registration step keeps.
- **`Commands`**: `NewCmd`, field by field.
- **`Dispatch`** and **`Arguments`**: the phases of `parse` as functions of the destinations
  and the `isSet` flags.
- **`Parser`**: the class `Argp`. Its methods carry the registration operations and `parse`,
  written with Go's loops and proved equal to the phase functions.
- **`Sources`**, **`Lists`**, **`Dicts`** and **`Tables`**: the three source options, as
  classes whose `Scan` methods update their fields.
- **`Counting`**: the class `Count`.
- **`Config`**: `UnmarshalConfig`, as a loop over an array of fields, proved equal to a
  function over the lines.
- **`Text`** and **`Literals`**: the parts of Go's `strings`, `bufio` and `strconv` that argp
  relies on.

`New` is `NewCmd` without a struct. In the model it is `Parser.NewCmd` with no fields.

## Model

| member | source | states |
|---|---|---|
| Text.Lower | argp.go:582-583 | lower-casing keeps the length and maps each character; no upper-case letter is left |
| Text.LowerIdempotent | argp.go:582-590 | lower-casing a lower-cased name changes nothing, so stored lower-case long names are found again |
| Text.IndexOf | list.go:58 | the first position of the character, or none exactly when it does not occur |
| Text.Split | argp.go:653 | at least one piece, and no piece holds the separator |
| Text.JoinSplit | argp.go:644-653 | joining the pieces of a split with the separator gives back the text |
| Text.SplitJoin | dict.go:83 | splitting a join of separator-free pieces gives back the pieces |
| Text.JoinEnds | table.go:72 | a join ends with its last piece |
| Text.TrimSpace | util.go:61-62 | the result is the part of the text between a leading and a trailing run of spaces, and neither starts nor ends with a space |
| Text.Title | argp.go:833 | the first character and every character after a separator are upper-cased; every other character is kept |
| Text.Lines | util.go:49-52 | the lines of a text hold no newline; a non-empty text has at least one line (what they hold: `Text.LinesCut`) |
| Text.TrimSpaceUnique | util.go:61-62 | the trimmed text is the one infix that drops only spaces on either side and keeps no space at either end |
| Text.LinesCut | util.go:49-52 | the text is its lines joined by newlines, a carriage return dropped before each newline |
| Text.LinesJoin | util.go:49-52 | text without carriage returns is exactly its lines joined by newlines |
| Literals.ParseBool | argp.go:865-868 | true exactly for the six spellings of true, false exactly for the six spellings of false |
| Literals.ParseFormatBool | argp.go:865-869 | a boolean's Go spelling parses back to it |
| Literals.ParseUint | argp.go:879-882 | accepted exactly when the text is one or more digits denoting at most 2^64-1, and that number |
| Literals.ParseFormatUint | argp.go:879-883 | every unsigned 64-bit number parses back from its decimal spelling |
| Literals.ParseInt | argp.go:872-875 | results lie in the signed 64-bit range; unsigned spellings are accepted exactly when they fit |
| Literals.ParseFormatInt | argp.go:872-876 | every signed 64-bit number parses back from its decimal spelling |
| Literals.WrapSigned | argp.go:876 | the stored value lies in the width's signed range and is congruent to the parsed one |
| Literals.WrapUnsigned | argp.go:883 | the stored value lies below 2^width and is congruent to the parsed one |
| Literals.WrapSignedInRange | argp.go:876 | a value already in the signed range is stored unchanged |
| Literals.WrapUnsignedInRange | argp.go:883 | a value already in the unsigned range is stored unchanged |
| Literals.Wide64 | argp.go:872-876 | at 64 bits nothing a parse accepts is ever truncated |
| Kinds.Zero | argp.go:958 | the fresh variable of any kind is a value of that kind |
| Kinds.SubTypeOccurs | argp.go:1126-1143 | a kind is a valid sub-kind exactly when neither a Scanner nor an unsupported type occurs in it at any depth |
| Kinds.TypeOccurs | argp.go:1118-1124 | a valid destination holds no unsupported type anywhere, and a Scanner only as the destination itself |
| Counting.NextCount | custom.go:12-21 | an integer first token becomes the count; otherwise the count goes up by one, wrapping from the largest to the smallest int64 |
| Counting.Repeat | custom.go:19 | repeated counting stays within int64 |
| Counting.RepeatFront | custom.go:19 | one count followed by n more is n+1 counts |
| Counting.CountsOccurrences | custom.go:12-21 | n scans without a number, starting from zero, count to n |
| Counting.Count.constructor | custom.go:10 | a Count holds the given int64 value |
| Counting.Count.Scan | custom.go:12-21 | the new count is NextCount of the old one, and no token is reported consumed |
| Tokens.Closer | argp.go:757 | the closing bracket of an opening bracket is the character two code points later |
| Tokens.CloseFrom | argp.go:752-775 | the position found holds a closing bracket, at or after the cursor (that it is the first to balance: `Tokens.CloseFromFirst`) |
| Tokens.Bracketed | argp.go:748-776 | the group and its tail put back together give the list (the split form too); a group ends with its closing bracket, starts where the list starts, and leaves a strictly smaller tail |
| Tokens.TruncEnd | argp.go:748-776 | the character loop with its stack of levels computes Bracketed |
| Tokens.CloseFromFirst | argp.go:752-775 | the closing position found is the first at or after the cursor at which the text read so far closes every group; none is found exactly when no later position does |
| Tokens.BracketedCuts | argp.go:748-776 | no group is found exactly when no position of the text balances every bracket before it (a close with nothing open, a close of the wrong kind, or no close at all); otherwise the group is the text up to the first such position, balanced, whether or not that is a token boundary |
| Tokens.EncloseGroup | argp.go:748-776 | tokens without brackets written inside `[...]` or `{...}` form one group closing at a token boundary, and stripping its brackets gives them back |
| Tokens.DropEmpty | argp.go:923-925 | the suffix left after the leading empty tokens, starting with a non-empty token |
| Tokens.DropFirst | argp.go:906-910 | the first character removed, and its token with it when nothing is left of it |
| Tokens.DropLast | argp.go:911-915 | the last character removed, and its token with it when nothing is left of it |
| Scanning.Scan | argp.go:851-1107 | the result has the destination's kind and consumes at most the tokens given; a Scanner reports 0 tokens; anything else consumes at least one or fails, with "missing value" on no tokens; only maps and structs are written before the value is known valid |
| Scanning.ScanList | argp.go:892-972 | a failed array or slice scan leaves the destination unchanged; a successful one consumes between one and all tokens |
| Scanning.ListOf | argp.go:965-972 | a slice holds exactly the scanned elements; an array only when their number is its length; otherwise the destination is unchanged |
| Scanning.Elems | argp.go:918-964 | every element scanned has the element kind |
| Scanning.NextElem | argp.go:935-957 | outside the comma form an element is a value; in the comma form an element is never empty and the rest never grows |
| Scanning.NextValue | argp.go:1031-1043 | a value is either nothing, leaving the tokens, or a prefix of them followed by a strictly smaller rest |
| Scanning.NextKey | argp.go:993-1023 | after a key and its colon, strictly fewer characters are left |
| Scanning.ElemStart | argp.go:921-942 | the first element starts at the tokens; a later one in the comma form starts after a comma, on strictly fewer characters |
| Scanning.Fresh | argp.go:958-961 | a fresh variable scanned from at least one token, with the element kind |
| Scanning.ScanMap | argp.go:973-1053 | the map keeps every key it had, success or failure, and stays of its kind |
| Scanning.Entries | argp.go:992-1053 | the entries read are added to the map, which keeps every key it had |
| Scanning.ScanStruct | argp.go:1054-1102 | the struct stays of its kind; a success consumes between one and all tokens |
| Scanning.Fields | argp.go:1073-1102 | fields before the current one are never rewritten, and every field keeps its kind |
| Scanning.FieldValue | argp.go:1076-1096 | scanning one field leaves every other field as it was |
| Scanning.Into | argp.go:1093-1095 | ScanVar into one field writes exactly the value scanned into that field and leaves every other field as it was; the error is reported iff that scan failed, and it is the scan's error |
| Indexing.FieldFrom | argp.go:834 | the first field with the name, or none exactly when no field has it |
| Indexing.MapKey | argp.go:808-825 | a string key is the index itself; integer keys are accepted exactly when the index parses; other key kinds are refused |
| Indexing.ListIndex | argp.go:787-802 | an integer index is accepted exactly when it parses; other element kinds are refused |
| Indexing.ScanIndexed | argp.go:778-849 | a Scanner ignores the path; without a path it is ScanVar, except that a boolean never fails and becomes true; a path into a scalar panics and into an array or slice panics or fails; a failed map step leaves the map as it was; a successful map step writes the one entry at the key its index denotes; a struct step goes to the first field of the title-cased name and writes that field alone |
| Indexing.NothingConsumedAgain | argp.go:843-848 | a scan that consumes no token consumes none again from the value it leaves, which is why parse then stays on the token |
| Registry.IsValidName | argp.go:1109-1116 | a name starting with `-` is refused; a valid name holds no `=` and no space |
| Registry.LowerValidName | argp.go:120-127 | a valid name stays valid once lower-cased for storage |
| Registry.FindShort | argp.go:573-580 | the first binding with that short name, or none exactly when no binding has it |
| Registry.FindLong | argp.go:582-590 | the first binding whose non-empty long name equals the lower-cased query, or none exactly when there is none |
| Registry.FindIndex | argp.go:592-599 | the first binding at that position, or none exactly when none is there |
| Registry.FindRest | argp.go:601-608 | the first rest binding, or none exactly when there is none |
| Registry.FindName | argp.go:556-571 | the first binding named by its name, long name or one-character short name; never one for the empty name |
| Registry.NextFree | argp.go:276-281 | above every position in use, and one above a position in use when not 0 |
| Registry.NextFreeAppend | argp.go:276-281 | a new binding moves the next free position past its own position, or not at all |
| Registry.SoundAppend | argp.go:176 | appending a binding that passes NewCmd's checks keeps the bindings sound |
| Registry.RegisteredAppend | argp.go:256 | appending such a binding at the next free position, or at none, keeps every registration rule |
| Registry.PositionInUse | argp.go:180-182 | registered bindings use every position below the next free one |
| Registry.OptVar | argp.go:211-257 | AddOpt accepts exactly when the kind is supported, a name is given, the names are valid, one-character and unused, and the default fits; the binding stores the long name lower-cased |
| Registry.OptVarRegistered | argp.go:211-257 | AddOpt keeps every registration rule, and the new option is found by its long name |
| Registry.ValVar | argp.go:260-291 | AddVal accepts exactly when the kind is supported and the default fits, and places the argument at the next free position |
| Registry.ValVarRegistered | argp.go:260-291 | AddVal keeps every registration rule, and the new argument is found at its position |
| Registry.RestVar | argp.go:293-314 | AddRest accepts exactly when there is no rest binding yet and the kind is []string; the name is stored lower-cased |
| Registry.RestVarRegistered | argp.go:293-314 | AddRest keeps every registration rule, and the new binding is the rest binding |
| Dispatch.Defaults | argp.go:620-631 | every binding with a default holds it; the others keep their value |
| Dispatch.ReadLong | argp.go:641-651 | the token is `--name`, `--name=` or `--name=value`; the name holds no `=` and is the path joined with dots; the value tokens follow it |
| Dispatch.LongOption | argp.go:641-667 | a long option keeps every destination of its kind and moves the cursor forward or stays on the token; an error never parses |
| Dispatch.ShortLetter | argp.go:669-708 | one letter of a bundle never gets stuck and keeps every destination of its kind |
| Dispatch.Bundle | argp.go:669-709 | a bundle of short options never gets stuck and moves the cursor forward or stays on the token |
| Dispatch.OptionMove | argp.go:640-710 | only a long option can get stuck on its token |
| Dispatch.TokenLoop | argp.go:633-714 | the token loop keeps every destination of its kind; an error never parses |
| Dispatch.OptionToken | argp.go:640-710 | an option token and the tokens after it keep every destination of its kind |
| Dispatch.Missing | argp.go:729-733 | an argument at or past the filled positions without a default, or none exactly when all of them have one |
| Dispatch.Fill | argp.go:716-743 | the positional phase keeps every destination of its kind |
| Dispatch.Finish | argp.go:729-743 | success only when every unfilled argument has a default; the positionals left over are returned, or become the rest binding's value; the only refusal is a missing argument |
| Dispatch.ParseNode | argp.go:620-744 | parse keeps every destination of its kind |
| Dispatch.StuckForever | argp.go:658-666 | a long option stuck on its token is stuck again from the state it leaves, so Go's loop never ends |
| Dispatch.ShortSpellings | argp.go:679-705 | `-c<t>`, `-c=<t>` and `-c <t>` give a non-boolean short option the same value |
| Dispatch.ShortGlued | argp.go:679-695 | `-c<t>` scans t and what follows it into c |
| Dispatch.ShortEquals | argp.go:680-695 | `-c=<t>` scans t and what follows it into c |
| Dispatch.ShortSeparate | argp.go:696-705 | `-c <t>` scans the next tokens into c |
| Dispatch.ShortValue | argp.go:679-705 | a single short option takes its value from the rest of its token (past `=`) or from the next token |
| Dispatch.GluedValueRequired | argp.go:685-689 | `-c=<t>` whose value does not scan or consumes nothing is refused with "must not have value" |
| Dispatch.BundleBools | argp.go:669-678 | a bundle of boolean letters sets exactly the bindings it names to true and marks them set; nothing else changes |
| Dispatch.BundleCounts | argp.go:696-700 | `-ccc` not followed by an integer counts the Count option once per letter |
| Dispatch.CountLetter | argp.go:696-700 | one letter of such a bundle counts once and moves to the next letter |
| Dispatch.NonEmpty | argp.go:711-713 | exactly the non-empty tokens are kept, and no more of them |
| Dispatch.PlainStep | argp.go:711-713 | a token that is not an option is kept as a positional argument unless it is empty |
| Dispatch.PlainTokens | argp.go:634-714 | tokens that are not options become the positional arguments in order, empty ones dropped |
| Dispatch.PlainLast | argp.go:711-713 | the last of a run of plain tokens extends the positional arguments collected before it |
| Dispatch.DashesEnd | argp.go:636-639 | at `--` the loop stops and every later token is appended to the positional arguments unchanged |
| Dispatch.EndOfOptions | argp.go:636-639 | `--` ends the options: every token after it is positional as written, empty ones included |
| Dispatch.OnlyPositional | argp.go:620-744 | without options, parse applies the defaults and scans the non-empty tokens as positional arguments |
| Arguments.Taken | argp.go:717-728 | the positional phase takes as many arguments as there are, or as there are positions, whichever is smaller |
| Arguments.ArgumentScan | argp.go:723 | the argument scanned into its position's binding has that binding's kind |
| Arguments.Written | argp.go:716-728 | only the bindings of the positions already filled are written |
| Arguments.Marked | argp.go:726 | a binding is marked set when it was set before or its position is filled |
| Arguments.FillStep | argp.go:718-727 | one argument writes exactly the binding of its position and marks it set |
| Arguments.FillMove | argp.go:718-727 | an accepted argument moves the positional phase on to the next position |
| Arguments.FillAccepted | argp.go:716-728 | when every argument the positions take scans, the phase writes each of them in order and finishes |
| Arguments.FillDone | argp.go:719-722 | when the arguments or the positions run out, the phase finishes |
| Arguments.RefusedAt | argp.go:723-725 | the refusal parse reports for an argument that does not scan |
| Arguments.FillRefused | argp.go:723-725 | the first argument that does not scan stops parse with its position and error |
| Arguments.FillRefusedAt | argp.go:723-725 | an argument that does not scan at the current position is refused there |
| Arguments.FillInOrder | argp.go:716-728 | positional arguments fill positions 0, 1, 2, … in order |
| Arguments.NoArguments | argp.go:610-744 | with no tokens, parse applies the defaults and goes straight to the check for missing arguments |
| Commands.FieldName | argp.go:101-117 | a `name` tag gives the binding name; otherwise it is the Go field name lower-cased, character by character |
| Commands.ImplicitLong | argp.go:118-119 | the corrected half of the first finding: the implicit long name is the binding name lower-cased, so findLong can find it (Go keeps the name as written, see Commands.ImplicitLongAsWritten) |
| Commands.FieldLong | argp.go:118-127 | no tag gives the implicit long name; a non-empty tag is accepted exactly when it is valid and unused; the result is lower case |
| Commands.FieldShort | argp.go:128-139 | accepted exactly when the tag is empty, or is one valid character that is not in use |
| Commands.FieldPlace | argp.go:140-165 | a position is new; the rest binding is unique, a []string without a default; an index with option names is refused; no index means no place |
| Commands.FieldDefault | argp.go:166-172 | the default tag, scanned as one token, has the field's kind |
| Commands.FieldVar | argp.go:95-177 | the binding of a field has its kind and name and can join the earlier bindings; an unsupported kind is refused |
| Commands.FieldVars | argp.go:95-178 | the bindings of all fields are sound, one per field, each with its field's kind |
| Commands.Positions | argp.go:179-190 | the check of the positions fails only with a missing position or a required argument after an optional one |
| Commands.PositionsFail | argp.go:179-190 | a missing position is in range and has no binding; a required argument after an optional one names a position without a default and the first earlier one with a default |
| Commands.PositionsPass | argp.go:179-190 | when the check of the positions passes, every position is in use and arguments with a default come last |
| Commands.PositionsFound | argp.go:180-182 | when the check passes, every position has its binding |
| Commands.PositionsDefaulted | argp.go:183-189 | once an argument with a default has been seen, every later one has a default |
| Commands.PositionsStep | argp.go:180-189 | the check passes on to the next position and remembers an argument with a default |
| Commands.PositionsOrdered | argp.go:179-190 | an argument with a default is followed only by arguments with one |
| Commands.PositionsRegistered | argp.go:179-190 | sound bindings that pass the check follow every registration rule, with the arguments that have a default last |
| Commands.HelpVar | argp.go:192-198 | the help option is a boolean `--help`, with `-h` exactly when `-h` is free |
| Commands.WithHelp | argp.go:192-198 | the bindings are kept first and unchanged; the help option is added exactly when `--help` is not taken, and `--help` is found afterwards |
| Commands.CmdVars | argp.go:77-200 | a built command has one binding per field, in order and of its kind, plus at most the help option, and answers to `--help`; a field of an unsupported kind makes NewCmd fail |
| Commands.HelpRegistered | argp.go:192-198 | adding the help option keeps every registration rule, and `--help` is found afterwards |
| Commands.OptionalLastOption | argp.go:194 | an option added after the arguments keeps the arguments with a default last |
| Commands.CmdVarsRegistered | argp.go:77-200 | a command built by NewCmd follows every registration rule, has its arguments with a default last, and has `--help` |
| Commands.ImplicitLongFound | argp.go:118-119 | a field without a `long` tag is found by its name, in any case |
| Commands.ImplicitLongAsWritten | argp.go:118-119 | the implicit long name is the binding name as given, not lower-cased |
| Commands.ImplicitLongUnreachable | argp.go:118-119 | a field tagged `name:"Port"` gets the long name `Port`, which findLong never finds |
| Commands.CmdNameAsWritten | argp.go:318-322 | AddCmd accepts exactly when the raw name is not a key and is non-empty and does not start with `-` |
| Commands.CmdNameReplaces | argp.go:318-327 | with a command `run`, `AddCmd("Run")` passes the check and overwrites `run` |
| Commands.CmdName | argp.go:318-322 | the corrected check: it accepts exactly when the lower-cased name is not a key and the name is non-empty and does not start with `-` |
| Commands.CmdNameKeeps | argp.go:318-327 | a sub-command the corrected check accepts never replaces another |
| Parser.ReadBundle | argp.go:669-709 | the loop over the letters of a bundle computes Bundle |
| Parser.ReadLetter | argp.go:670-708 | one letter either ends the bundle as Bundle does, or moves strictly forward with the same outcome |
| Parser.ReadTokens | argp.go:633-714 | the loop over the tokens computes TokenLoop |
| Parser.ReadToken | argp.go:635-713 | one token either ends the loop as TokenLoop does, or moves strictly forward with the same outcome |
| Parser.ReadOption | argp.go:640-710 | an option token is read as OptionMove says |
| Parser.OptionStep | argp.go:662-666 | after an option token the loop goes on one past the cursor the option leaves, ends with its error, or never ends when the option is stuck |
| Parser.ReadArguments | argp.go:716-743 | the loops after the tokens compute Fill |
| Parser.ArgumentStep | argp.go:719-727 | an argument that does not scan refuses with its position; one that scans is written and marked set |
| Parser.ReadRest | argp.go:729-743 | the check for missing arguments and the rest binding compute Fill once the positions are filled |
| Parser.FindMissing | argp.go:729-733 | the loop finds Missing |
| Parser.Argp.constructor | argp.go:77-83 | a parser holds the given bindings and destinations, no sub-commands, and nothing set |
| Parser.Argp.IsSet | argp.go:203-208 | true exactly when the first binding with that name is set |
| Parser.Argp.AddOpt | argp.go:211-257 | refused exactly when OptVar refuses, changing nothing; otherwise OptVar's binding is appended with its destination, unset |
| Parser.Argp.AddVal | argp.go:260-291 | refused exactly when ValVar refuses, changing nothing; otherwise ValVar's binding is appended with its destination, unset |
| Parser.Argp.AddRest | argp.go:293-314 | refused exactly when RestVar refuses, changing nothing; otherwise the rest binding is appended |
| Parser.Argp.AddCmd | argp.go:317-329 | a name that fails the check or fields NewCmd refuses change nothing; otherwise the new parser is stored under the lower-cased name |
| Parser.Argp.ApplyDefaults | argp.go:620-631 | the destinations become Defaults of the old ones; nothing else changes |
| Parser.Argp.ParseHere | argp.go:620-744 | parse of the chosen command is ParseNode of its state; the parser's destinations and flags are its result |
| Parser.Argp.Parse | argp.go:610-618 | parse runs on the parser that Route chooses, with the tokens left after the sub-command names |
| Parser.Route | argp.go:612-618 | the tokens left are a suffix of the tokens given; a first token that names a sub-command in any case hands the rest to that sub-command, and otherwise this parser keeps all the tokens; routing stops only at a token that names no sub-command of the parser reached |
| Parser.NewVal | argp.go:260-291 | the loop over the bindings computes ValVar |
| Parser.NewCmd | argp.go:77-200 | refused exactly when CmdVars refuses; otherwise a valid parser with the command's bindings, its field destinations, nothing set |
| Parser.HelpFits | argp.go:192-198 | the help flag's destination fits after the fields' destinations |
| Parser.ReadFields | argp.go:94-178 | the loop over the fields computes FieldVars and the next free position |
| Parser.CheckPositions | argp.go:179-190 | the loop over the positions computes the check of the positions |
| Parser.FieldVarsFail | argp.go:95-178 | a field NewCmd refuses makes every longer list of fields refused with its error |
| Sources.StringMap | dict.go:103-109 | the Go map[string]string of a scanned value: the same keys, with the same values |
| Sources.SourceSpec | list.go:49-66 | no tokens: missing value; an unclosed or split group: invalid value; otherwise a type starting with a letter, without a colon, and between one and all tokens |
| Sources.SpecCoversGroup | list.go:53-66 | the request covers exactly the bracket group: type, colon and the source's tokens, closing at a token boundary |
| Sources.SpecCloses | list.go:53-66 | the last token of a request ends with the group's closing bracket |
| Sources.ReadSpec | list.go:49-66 | the front every source Scan runs computes SourceSpec |
| Sources.OneTokenSpec | list.go:58-66 | a request written as one token `type:rest` gives that type and that rest |
| Lists.NewInlineList | list.go:86-94 | no tokens give the empty list; otherwise the list opens exactly when the tokens scan as a []string |
| Lists.InlineCommaList | list.go:86-94 | an inline list written as one token without brackets holds the pieces between its commas, in order |
| Lists.Has | list.go:96-103 | true exactly when the value is in the list |
| Lists.List.constructor | list.go:28-35 | only the inline source is registered, and no source is open |
| Lists.List.AddSource | list.go:41-43 | registers the opener for the type, replacing any earlier one |
| Lists.List.Scan | list.go:49-73 | errors of the request change nothing; otherwise the values become the request's tokens as handed to the opener, an unknown type is refused, and the source opens or is cleared with its error |
| Dicts.NewStaticDict | dict.go:82-84 | a static dict always opens |
| Dicts.StaticDictTokens | dict.go:82-84 | the text of a static dict gives back its tokens when split at spaces, if none holds a space |
| Dicts.NewInlineDict | dict.go:102-110 | no tokens give the empty dict; otherwise the dict opens exactly when the tokens scan as a map[string]string, and otherwise fails with the scan's error |
| Dicts.Has | dict.go:86-115 | a static dict has every key; an inline dict exactly the keys it holds |
| Dicts.Get | dict.go:90-123 | a static dict answers its text; an inline dict the stored value, or the key itself when it is missing |
| Dicts.InlineDictScanned | dict.go:102-123 | what an inline dict answers is what the scan of its tokens stored |
| Dicts.StaticKeepsBrackets | dict.go:58-92 | a static dict's text keeps the group's closing bracket |
| Dicts.Dict.constructor | dict.go:27-35 | exactly the static and the inline sources are registered, and none is open |
| Dicts.Dict.AddSource | dict.go:37-39 | registers the opener for the type, replacing any earlier one |
| Dicts.Dict.Scan | dict.go:45-69 | errors of the request change nothing; otherwise the values become the request's tokens as handed to the opener, an unknown type is refused, and the source opens or is cleared with its error |
| Tables.NewStaticTable | table.go:71-73 | a static table always opens |
| Tables.NewInlineTable | table.go:91-99 | no tokens give the empty table; otherwise it opens exactly when the tokens scan as a map[string]string |
| Tables.NewSqlTable | table.go:140-165 | anything but exactly one token is an invalid path; with one token it opens exactly when the connection does, keeping that token as its path |
| Tables.OpenTable | table.go:49-60 | exactly the four types are known; static always opens; each source is of its own type |
| Tables.Has | table.go:75-104 | a static table has every key; an inline table exactly the keys it holds |
| Tables.Get | table.go:79-108 | a static table answers its text; an inline table the stored value, or empty when it is missing |
| Tables.SqlPathKeepsBrackets | table.go:140-148 | the path an SQL table reads is the group's token as written, closing bracket included |
| Tables.StaticTableKeepsBrackets | table.go:71-81 | a static table's text keeps the group's closing bracket |
| Tables.Table.constructor | table.go:22-25 | a table holds the given values and no source |
| Tables.Table.Scan | table.go:31-65 | errors of the request change nothing; otherwise the values become the request's tokens as handed to the opener, an unknown type is refused, and the table opens or is cleared with its error |
| Config.Capitalized | util.go:68 | the key with its first letter upper-cased |
| Config.Lookup | util.go:66-72 | a field named exactly the key wins; otherwise a field named the capitalized key; none when neither exists |
| Config.Assign | util.go:73-102 | strings are taken verbatim; booleans and integers are accepted exactly when they parse; a counter destination and every other unsupported kind are refused |
| Config.Entry | util.go:61-102 | a key naming no field is skipped; a stored value goes to the field Lookup finds, with its kind |
| Config.Interpret | util.go:53-102 | blank and comment lines are skipped; a line without `=` fails with its number; an empty key fails with its number; stored values fit their field |
| Config.Actions | util.go:48-103 | one action per line, each numbered from 1 |
| Config.Run | util.go:50-103 | carrying out the actions keeps one value per field |
| Config.RunTyped | util.go:73-93 | every field keeps a value of its kind |
| Config.RunAppend | util.go:50-103 | running two parts in turn is running their concatenation; an error in the first stops it |
| Config.ActionsAppend | util.go:50-52 | lines split anywhere are read as the whole text, with line numbers carried on |
| Config.CommentsSkipped | util.go:53-56 | blank lines and comments change nothing and raise nothing |
| Config.RunStops | util.go:58-65 | the reading stops at the first action that fails, with its error |
| Config.ErrorLine | util.go:51-64 | a line error names its line, counted from 1 over all lines, and no earlier line fails |
| Config.LaterLineWins | util.go:73-93 | of two lines for the same field, the later one wins |
| Config.AssignFormatted | util.go:77-93 | a field read from Go's spelling of a value gets that value back, truncated to its width |
| Config.Unmarshal | util.go:41-105 | a destination that is not a struct is refused unchanged; one value per field is kept |
| Config.UnmarshalConfig | util.go:41-105 | the in-place loop over the lines leaves the fields and the error that Unmarshal gives |
| ScanFacts.StringTakesToken | argp.go:861-863 | a string takes its token as it is, the empty token too, consuming one |
| ScanFacts.IntRoundTrip | argp.go:871-877 | a signed integer reads back Go's spelling of it, truncated to the width |
| ScanFacts.BoolUintRoundTrip | argp.go:864-884 | booleans and every unsigned 64-bit number read back Go's spelling of them: exactly at 64 bits, truncated to a narrower width |
| ScanFacts.BoolScan | argp.go:864-870 | a bool takes true exactly for a spelling of true and false exactly for a spelling of false; anything else fails naming the token and keeps the value |
| ScanFacts.IntScan | argp.go:871-877 | a signed integer accepts a token exactly when strconv.ParseInt does, storing the number wrapped to the width (unchanged at 64 bits); otherwise it fails naming the token and keeps the value |
| ScanFacts.UintScan | argp.go:878-884 | an unsigned integer accepts a token exactly when it is one or more digits denoting at most 2^64-1, storing it wrapped to the width; otherwise it fails naming the token and keeps the value |
| ScanFacts.UintRefusesNegative | argp.go:878-882 | an unsigned destination refuses `-1` and keeps its value |
| ScanFacts.NarrowIntWraps | argp.go:871-877 | an int8 given 300 stores 44 |
| ScanFacts.CommaSlice | argp.go:892-964 | a []string read from one unbracketed token is the token split at its commas |
| ScanFacts.CommaToken | argp.go:918-964 | the comma form of one token gives the pieces between its commas |
| ScanFacts.CommaHead | argp.go:951-953 | the first comma of a token ends the first element |
| ScanFacts.CommaConsumesAll | argp.go:896-904 | the comma form reports every token it was given as consumed |
| ScanFacts.BracketConsumesGroup | argp.go:898-904 | the bracket form consumes exactly its group; an unclosed or split group is refused as an invalid slice or array |
| ListFacts.ElemsPlain | argp.go:918-964 | the elements of a bracket list of plain tokens are what the tokens scan to, in order, after those already read |
| ListFacts.BracketList | argp.go:892-972 | `[t1 t2 ...]` is accepted consuming its group, element i being what token i scans to from a zero element; an array refuses a list not of its length, keeping its value |
| ListFacts.BracketBadElement | argp.go:958-961 | the first element that does not scan refuses the list with its position and error, and the destination keeps its value |
| ListFacts.BracketStrings | argp.go:892-972 | a []string written `[a b c]` holds exactly the tokens |
| ListFacts.CommaTokens | argp.go:918-964 | the comma form over tokens each joined to the next by a comma (`a,` `b` or `a` `,b`) gives the pieces of their joined text between commas, consuming every token |
| MapFacts.PutAt | argp.go:1052 | after adding pairs in order, a key is present exactly when it was or was added, holds the value of its last pair, and otherwise keeps its old value |
| MapFacts.EntriesPlain | argp.go:992-1053 | plain `key:value` tokens add their pairs, in order, to the map, and reading goes on after them |
| MapFacts.MapLiteral | argp.go:973-1053 | `{k1:v1 ...}` is accepted consuming its group, and the map becomes the old map with each key set to what its value scans to, later entries winning, an empty value included |
| MapFacts.MapLaterWins | argp.go:1052 | `{a:x a:y}` on a map[string]string sets `a` to `y` |
| MapFacts.MapMissingColon | argp.go:1005-1014 | a bare key followed by a token not starting with `:` is refused naming the key, with the entries before it written |
| MapFacts.MapBareKeyDropped | argp.go:1008-1012 | a bare key at the end of the literal is dropped and the literal accepted with the entries before it |
| MapFacts.MapValueSplit | argp.go:1035-1039 | an entry value whose group closes inside its token, `{a:[x]y}`, is refused naming its key, and the map is left as it was |
| StructFacts.FieldsWritten | argp.go:1073-1097 | reading plain values from field j on writes field j+x with what value x scans to, and leaves every other field as it was |
| StructFacts.FieldsVerdict | argp.go:1098-1102 | reading plain values from field j on refuses with too many values when there are more values than fields left, with missing values when fewer, and accepts when they are equal |
| StructFacts.StructLiteral | argp.go:1054-1102 | `{v1 v2 ...}` of plain values writes field i with what value i scans to, or leaves it; it is accepted consuming its group exactly when there is one value per field, and refused with too many or missing values otherwise |
| StructFacts.StructTooMany | argp.go:1100-1101 | a struct literal with a value left over after its last field is refused with "too many values" |
| StructFacts.StructTooFew | argp.go:1080-1099 | a struct literal that runs out of values is refused with "missing values", with the fields it reached written |
| Indexing.PathToEntry | argp.go:807-831 | `--name.key=v` on a map with string keys sets the entry at `key` to what `v` scans to from a zero value, keeping every other entry; a failing value leaves the map as it was |
| Indexing.PathToField | argp.go:832-848 | `--name.field=v` writes the first field of that title-cased name with what `v` scans to, keeping every other field, with that scan's outcome |
| Dispatch.LongUnknown | argp.go:653-656 | a long option is refused as unknown, changing nothing, exactly when no binding has the long name before its first dot |
| Dispatch.LongSpellings | argp.go:641-667 | `--name=v` and `--name v` store the same value and mark the option set; the glued form leaves the cursor one token earlier; a value that fails refuses both alike without marking the option set |

## Left out

- `PrintHelp`, `wrapString`, `TypeName`, descriptions and help text: output formatting only.
- The public `Parse`: it prints, calls `Cmd.Run` and exits the process. `Parser.Argp.Parse`
  models the `parse` it calls, and returns what that `parse` returns.
- Floating-point destinations (`float32`, `float64`): they are not modelled. Dafny has no
  model of `strconv.ParseFloat`.
- The `Setter` and `TypeNamer` interfaces, and `Var.Set`'s conversion of defaults with
  `CanConvert`: defaults are values of the destination's kind.
- A Scanner other than `Count`: `CounterKind` stands for every Scanner destination.
- Kinds.Kind: `CounterKind` stands for a destination that is a pointer to `Count`, such as
  the one passed to `AddOpt` or a `*Count` field. A struct field of type `Count` is an `int`
  to Go's reflection, so in a command struct and in a configuration struct it is
  `IntKind(64)`: it is parsed as an integer and `-vvv` does not count. Config.Assign refuses
  `CounterKind`, as Go's reader refuses a `*Count` field.
- Case mapping and letter classes are ASCII only. `IsValidName` treats every non-ASCII
  character as a letter.
- Database sources: the SQL list, dict and table sources, including their queries, caching,
  `Has`/`Get` and `Close`. Of `newSQLiteTable` and `newMySQLTable`, only the one-token check is
  modelled. Reading the file and connecting is a parameter of the result.
- `Help` and `Close` of List, Dict and Table, and `List.List`: they print or release resources.
- `LoadConfigFile` and config.go: file I/O. term_posix.go is not part of this model.
- Nil versus empty slices and maps: the model does not tell them apart. It therefore does not
  capture the panic of writing an index into a nil map with integer keys.
- Indexed array and slice paths: the model stops at Go's panic, which is reflect's `IsNil` on
  an array and `Field` on a slice. It does not continue into the element.
- `bufio.Scanner`'s limit of 64 KiB per line: lines of any length are read.
- `truncEnd` rewrites the token slice in place, and so do the other splits of `ScanVar`: the
  model works on copies. The aliasing this creates with the caller's `args` is not modelled.
- Lists.List.Scan: the stored values are the request's tokens as the opener received them.
  Go stores the same slice it hands to the opener, and the inline opener's `[]string` scan
  strips the brackets from it in place. After `inline:[a` `b]`, Go's `Values` is `a` `b`;
  the model keeps `[a` `b]`.
- Dicts.Dict.Scan: the same aliasing. The inline opener's `map[string]string` scan rewrites
  the stored slice, so after `inline:{a:x}` Go's `Values` has lost the outer braces, while
  the model keeps `{a:x}`.
- Tables.Table.Scan: the same aliasing, for an inline table, whose opener scans a
  `map[string]string` from the stored slice.
- Parser.Argp.Parse: a token that a long option consumes nothing from makes Go's loop run
  forever. The model returns the outcome `Loops` instead, and `Dispatch.StuckForever` proves
  that the loop can never leave that state.
- Scanning.Scan: its contract states general facts. The values it produces are stated by
  `ScanFacts` for scalars, `ListFacts` for lists, `MapFacts` for maps and `StructFacts` for
  structs, for literals whose elements, entries and fields are plain tokens. Nested groups
  are covered only by the refusal `MapFacts.MapValueSplit`.
- Scanning.ScanList: its contract does not state the elements. `ListFacts.BracketList`,
  `ListFacts.BracketBadElement` and `ListFacts.CommaTokens` state them.
- Scanning.ScanMap: its contract states only that keys are kept. The entries written are
  stated by `MapFacts.MapLiteral` and the other `MapFacts` lemmas.
- Scanning.Entries: the same; `MapFacts.EntriesPlain` states the entries it writes.
- Scanning.ScanStruct: its contract states only that the result is a struct of its kind. The
  values written are stated by `StructFacts.StructLiteral`.
- Scanning.Fields: its contract states which fields are left alone. The values written are
  stated by `StructFacts.FieldsWritten`.
- Scanning.FieldValue: its contract states which fields are left alone. The value written is
  stated through `Scanning.Into`.
- ListFacts.CommaTokens: it needs every two neighbouring tokens to be joined by a comma. Where
  they are not, the list ends there and Go still reports every token consumed. Only that count
  is stated, by `ScanFacts.CommaConsumesAll`.
- Commands.FieldLong: it runs the corrected behaviour of the first row under "## Findings": an
  implicit long name is lower-cased. Go stores it as written, as
  `Commands.ImplicitLongAsWritten` does. A field tagged `name:"Port"` therefore answers to
  `--port` in the model, while Go refuses `--port` as unknown. Later calls see the lower-cased
  name too: `AddOpt` with long name `Port` is refused as taken, and a field tagged
  `name:"Help"` keeps `--help` from being added, where Go accepts both.
- Commands.FieldVar: built on `Commands.FieldLong`, so it runs the corrected behaviour of the
  first finding.
- Commands.FieldVars: the same corrected behaviour, for every field.
- Commands.CmdVarsRegistered: it is proved for the corrected implicit long names of the first
  finding.
- Parser.NewCmd: it runs the corrected behaviour of the first finding.
- Parser.ReadFields: it runs the corrected behaviour of the first finding.
- Parser.Argp.AddCmd: it runs the corrected check of the second row under "## Findings": the
  lower-cased name is checked against the keys. Go checks the raw name, as
  `Commands.CmdNameAsWritten` does.
- Unexported struct fields are not modelled. Every field of a command struct or config struct
  is taken to be a settable destination. Go's `NewCmd` registers an unexported field too, and
  reflect panics when parse sets it.
- Literals.ParseInt: the contract fixes the accepted set only for spellings without a sign.
  Signed spellings are covered by the round trip `Literals.ParseFormatInt`.
- Commands.FieldLong: as in Go, implicit long names are not checked for uniqueness. `findLong`
  returns the first binding that matches.
- Tables.Has, Tables.Get: defined for the static and inline tables only.

## Findings

| source | as written | input that shows it | evidently intended | confidence | as-written member | corrected member |
|---|---|---|---|---|---|---|
| argp.go:118-119 | a field without a `long` tag gets its binding name as long name without lower-casing, while findLong lower-cases the query | a field with tag `name:"Port"`: no spelling of `--port`/`--Port` finds it | the implicit long name lower-cased, as line 126 does for a `long` tag | high, not executed | Commands.ImplicitLongUnreachable | Commands.ImplicitLongFound |
| argp.go:318-327 | AddCmd checks the raw name against the keys but stores the lower-cased name | `AddCmd(c1, "run", …)` then `AddCmd(c2, "Run", …)`: no panic, and `run` is replaced | the duplicate check made on the lower-cased name | high, not executed | Commands.CmdNameReplaces | Commands.CmdNameKeeps |
