# EspritHub server: `.env` loading and user roles

This project models two small pieces of the EspritHub Spring Boot server and proves properties of them.

**The `.env` loader.** `EnvironmentConfig.loadEnvFile` reads the `.env` file line by line and builds a `Properties` table:

- It drops lines whose trimmed form is empty or starts with `#`.
- It cuts every other line once, at the first `=`. A line with no `=` is ignored.
- It trims the key and the value. It removes one pair of matching `"` or `'` from around the value.
- It stores the pair with `setProperty`, so a later line for the same key wins.
- It registers the table as the last property source of the Spring environment, under the name `envFile`.

An `IOException` while opening the file is swallowed, and the environment is left unchanged. An error while reading or closing the stream is raised as an `UncheckedIOException`, which that handler does not catch.

There is one edge case. A value that trims to a single quote mark passes both the `startsWith` and the `endsWith` test. `substring(1, 0)` then throws `StringIndexOutOfBoundsException`. That exception is not caught, so it escapes `loadEnvFile` and nothing is registered. The model keeps this behaviour: the exception is an explicit outcome.

**User roles.** `UserRole` is an enum of four roles: ADMIN, CHIEF, TEACHER and STUDENT. Each role carries a Spring Security authority string, which `getAuthority` returns.

Files:

- `wrappers.dfy`: `Option`.
- `java_string.dfy`: the `java.lang.String` operations the loader uses. These are `trim`, `startsWith`/`endsWith`, `indexOf`, `split(sep, 2)` and `substring` with its exception.
- `environment_config.dfy`: the loader.
  - Per line, it is the pure function `ParseLine`.
  - For the whole file, it is the loop `ReadProperties`, which fills a `Properties` object with `SetProperty`. That loop is proved equal to the fold `ParseEnv`.
  - The try/catch and `addLast` on an `Environment` object are `LoadEnvFile`.
- `user_role.dfy`: the `UserRole` enum and its authorities.

## Model

| member | source | states |
|---|---|---|
| JavaString.TrimCutsOnlyBlanks | server/src/main/java/tn/esprithub/server/config/EnvironmentConfig.java:50-51 | `trim` removes only blanks (chars ≤ U+0020), only from the two ends, and keeps one unbroken piece that has no blank end |
| JavaString.Trim | server/src/main/java/tn/esprithub/server/config/EnvironmentConfig.java:46-51 | the result is no longer than the input and has no blank end; TrimCutsOnlyBlanks and TrimUnique pin it down exactly |
| JavaString.TrimUnique | server/src/main/java/tn/esprithub/server/config/EnvironmentConfig.java:50-51 | any way of cutting only blanks off the two ends, leaving no blank end, gives exactly `trim`'s result |
| JavaString.TrimEmpty | server/src/main/java/tn/esprithub/server/config/EnvironmentConfig.java:46 | `trim(s)` is empty exactly when every character of `s` is blank |
| JavaString.TrimIdempotent | server/src/main/java/tn/esprithub/server/config/EnvironmentConfig.java:46 | trimming twice gives the same result as trimming once |
| JavaString.TrimNoBlankEnds | server/src/main/java/tn/esprithub/server/config/EnvironmentConfig.java:50-51 | a string with no blank end is left unchanged by `trim` |
| JavaString.TrimKeepsOut | server/src/main/java/tn/esprithub/server/config/EnvironmentConfig.java:50 | a character absent from `s` is absent from `trim(s)` |
| JavaString.IndexOf | server/src/main/java/tn/esprithub/server/config/EnvironmentConfig.java:48 | the result is -1 exactly when the character is absent; otherwise it is a position holding it |
| JavaString.IndexOfFirst | server/src/main/java/tn/esprithub/server/config/EnvironmentConfig.java:48 | the position `indexOf` gives is the first occurrence |
| JavaString.SplitLimitTwo | server/src/main/java/tn/esprithub/server/config/EnvironmentConfig.java:48-49 | `split("=", 2)` gives one or two parts; one part exactly when there is no separator, and then the part is the whole string |
| JavaString.SplitLimitTwoJoins | server/src/main/java/tn/esprithub/server/config/EnvironmentConfig.java:48 | when the separator occurs, the first part holds no separator, and part0 + sep + part1 rebuilds the string |
| JavaString.SplitAtFirst | server/src/main/java/tn/esprithub/server/config/EnvironmentConfig.java:48 | with no separator in `a`, splitting `a + sep + b` gives exactly `[a, b]`; empty parts are kept and `b` keeps later separators |
| EnvironmentConfig.IsBlankOrComment | server/src/main/java/tn/esprithub/server/config/EnvironmentConfig.java:46 | the stream filter: the trimmed line is empty or starts with `#`; BlankOrCommentFirstChar states which lines these are |
| EnvironmentConfig.BlankOrCommentFirstChar | server/src/main/java/tn/esprithub/server/config/EnvironmentConfig.java:46 | the filter drops exactly the all-blank lines and the lines whose first non-blank character is `#` |
| EnvironmentConfig.Unquote | server/src/main/java/tn/esprithub/server/config/EnvironmentConfig.java:53-56 | a value wrapped in matching `"` or `'` loses exactly its first and last character; any other value, including mismatched quotes, is kept; a lone quote mark, and only that, throws `StringIndexOutOfBounds(1, 0, 1)` |
| EnvironmentConfig.ParseLine | server/src/main/java/tn/esprithub/server/config/EnvironmentConfig.java:46-58 | a blank or comment line stores nothing; a line without `=` stores nothing; the only exception a line can raise is `StringIndexOutOfBounds(1, 0, 1)` |
| EnvironmentConfig.ParseLineKey | server/src/main/java/tn/esprithub/server/config/EnvironmentConfig.java:48-50 | a stored key contains no `=` and has no blank end |
| EnvironmentConfig.ParseAssignment | server/src/main/java/tn/esprithub/server/config/EnvironmentConfig.java:48-57 | a kept line `a=b` (no `=` in `a`) stores key trim(a); the value is trim(b) if not wrapped, trim(b) with one outer pair removed (not trimmed again) if wrapped, and a lone quote throws |
| EnvironmentConfig.CommentLineSkipped | server/src/main/java/tn/esprithub/server/config/EnvironmentConfig.java:46 | a line whose first non-blank character is `#` stores nothing, whatever follows, `=` included |
| EnvironmentConfig.ParseQuotedLine | server/src/main/java/tn/esprithub/server/config/EnvironmentConfig.java:46-57 | round trip: for a plain key and any value, parsing `key="value"` gives back exactly `(key, value)` |
| EnvironmentConfig.ParsePlainLine | server/src/main/java/tn/esprithub/server/config/EnvironmentConfig.java:46-57 | round trip: for a plain key and an unwrapped value with no blank end, parsing `key=value` gives back `(key, value)`; the value may contain `=` and `#` |
| EnvironmentConfig.Collect | server/src/main/java/tn/esprithub/server/config/EnvironmentConfig.java:47-59 | an aborted fold names a line that raised, with that line's exception |
| EnvironmentConfig.CollectLastWins | server/src/main/java/tn/esprithub/server/config/EnvironmentConfig.java:47-57 | a key is in the table exactly when some line stores it; its value is that of a line after which no line stores the key (the last one wins) |
| EnvironmentConfig.CollectAbortsAtFirstThrow | server/src/main/java/tn/esprithub/server/config/EnvironmentConfig.java:47-59 | loading aborts exactly when some line raises, and it aborts at the first such line |
| EnvironmentConfig.CollectAppend | server/src/main/java/tn/esprithub/server/config/EnvironmentConfig.java:47-59 | folding `a + b` is folding `a`, then `b` on top: the tables merge with `b` winning, and an exception in `b` is reported at its position in the whole |
| EnvironmentConfig.CollectStep | server/src/main/java/tn/esprithub/server/config/EnvironmentConfig.java:47-58 | one more line: a skip keeps the table, an entry overwrites its key, and an exception ends the whole load at that line |
| EnvironmentConfig.ParseEnv | server/src/main/java/tn/esprithub/server/config/EnvironmentConfig.java:45-59 | the fold of `ParseLine` over the lines; when it aborts, it names a line that throws, with that line's exception (ParseEnvLastWins and ParseEnvAbortsAtFirstThrow give the rest) |
| EnvironmentConfig.ParseEnvLastWins | server/src/main/java/tn/esprithub/server/config/EnvironmentConfig.java:46-57 | for the lines of a file, a key is in the table exactly when some line stores it; its value comes from the last line storing it, and that line contains `=` |
| EnvironmentConfig.ParseEnvAbortsAtFirstThrow | server/src/main/java/tn/esprithub/server/config/EnvironmentConfig.java:46-59 | loading the lines of a file fails exactly when some line throws, and it fails at the first such line with that line's exception |
| EnvironmentConfig.Properties.constructor | server/src/main/java/tn/esprithub/server/config/EnvironmentConfig.java:42 | `new Properties()` is empty |
| EnvironmentConfig.Properties.SetProperty | server/src/main/java/tn/esprithub/server/config/EnvironmentConfig.java:57 | `setProperty` maps the key to the value and leaves every other key unchanged |
| EnvironmentConfig.Without | server/src/main/java/tn/esprithub/server/config/EnvironmentConfig.java:62-64 | the kept sources are exactly the old ones not named `name` |
| EnvironmentConfig.WithoutKeepsUniqueNames | server/src/main/java/tn/esprithub/server/config/EnvironmentConfig.java:62-64 | taking out the sources of one name keeps source names unique |
| EnvironmentConfig.Environment.constructor | server/src/main/java/tn/esprithub/server/config/EnvironmentConfig.java:40 | an environment holds the given sources, whose names are unique |
| EnvironmentConfig.Environment.AddLast | server/src/main/java/tn/esprithub/server/config/EnvironmentConfig.java:62-64 | `addLast` removes any source of the same name and appends the new one at the end; source names stay unique |
| EnvironmentConfig.ReadProperties | server/src/main/java/tn/esprithub/server/config/EnvironmentConfig.java:42-60 | the `forEach` loop over a fresh `Properties` table produces exactly the fold `ParseEnv` of the lines, including the abort at the first throwing line |
| EnvironmentConfig.LoadEnvFile | server/src/main/java/tn/esprithub/server/config/EnvironmentConfig.java:40-70 | an unreadable file changes nothing; a file that loads replaces any `envFile` source with the parsed table at the end; a line that throws escapes and leaves the sources unchanged |
| Enums.Values | server/src/main/java/tn/esprithub/server/common/enums/UserRole.java:3-7 | there are exactly four roles, all distinct, and every role is among them |
| Enums.Name | server/src/main/java/tn/esprithub/server/common/enums/UserRole.java:4-7 | `name()`: the constant's identifier, a non-empty string of capital letters |
| Enums.Authority | server/src/main/java/tn/esprithub/server/common/enums/UserRole.java:4-17 | `getAuthority`: each authority is `ROLE_` followed by the constant's name |
| Enums.AuthorityHasRolePrefix | server/src/main/java/tn/esprithub/server/common/enums/UserRole.java:4-17 | every authority starts with `ROLE_` and has more after it |
| Enums.NameInjective | server/src/main/java/tn/esprithub/server/common/enums/UserRole.java:4-7 | different constants have different names |
| Enums.AuthorityInjective | server/src/main/java/tn/esprithub/server/common/enums/UserRole.java:4-17 | different roles have different authorities |
| Enums.FindByAuthority | server/src/main/java/tn/esprithub/server/common/enums/UserRole.java:4-17 | a role found among `roles` has the given authority; when none is found, no role in `roles` has it |
| Enums.RoleOf | server/src/main/java/tn/esprithub/server/common/enums/UserRole.java:4-17 | the role found has the given authority; none is found exactly when no role has that authority |
| Enums.RoleOfAuthority | server/src/main/java/tn/esprithub/server/common/enums/UserRole.java:4-17 | `getAuthority` can be inverted on its image: looking up a role's authority gives back that role |

## Left out

- File discovery in `postProcessEnvironment` (`.env` in the working directory, then in the project root) is filesystem I/O and is not modelled. `LoadEnvFile` receives the file's lines, or None when opening it fails with an `IOException`.
- `Files.lines` is not modelled. This covers splitting the file into lines at `\n`, `\r\n` or `\r`, and decoding it as UTF-8. The stream is lazy, so any read error after it is opened (a decoding failure included), and any error while closing it, raises `UncheckedIOException` from the `forEach` or the try-with-resources. That exception is not caught and escapes `loadEnvFile` with the environment unchanged; the model does not include that outcome.
- `addLast` comes from Spring, not from the modelled files. It is modelled from Spring's documented behaviour: remove any source with the same name, then append. The rest of the property-source machinery is not modelled, including lookup order and the `PropertiesPropertySource` wrapper.
- A Java `String` is a sequence of UTF-16 code units; a Dafny `string` is a sequence of Unicode scalar values. Every character the loader tests (blanks up to U+0020, `=`, `#`, the two quote marks) is one unit in both, so this difference does not change any result.
- `getAuthority` returns a `final` field set by the enum constructor. The model makes the authority a function of the constant, so it can never change. The private constructor and field are not modelled separately.
- Concrete single-line examples such as `A=b=c` or `K=#x` are not stated as literal lemmas. They are instances of `ParsePlainLine` and `ParseAssignment`.
