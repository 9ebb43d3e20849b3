# bsd-netgui configuration core, in Dafny

bsd-netgui is a FreeBSD network manager. It keeps its state in plain-text system files. This
project models the part that reads, edits, checks and writes those files, plus the parsers it
applies to command output:

- **Config lines and the generic parser** (`ConfigLines`, `ConfigParsing`,
  `bsd_netgui/utils/config_parser.py`). A line is split into key, value and inline comment. A
  quote-aware loop decides where the comment starts. The document is a list of lines plus an
  index from each key to its line. The class `ConfigParsing.ConfigParser` owns both.
  `parse`, `get`, `set`, `delete`, `write`, `validate`, `get_all_variables`, `add_comment` and
  `add_blank_line` are methods proved against functions on the document value.
- **Address and netmask checks** (`SystemUtils`, `bsd_netgui/utils/system_utils.py`). A valid
  address is a dotted quad. A netmask is either a prefix length from 0 to 32, or a dotted
  quad whose 32-bit binary text has no `01` transition.
- **rc.conf** (`RcConf`, `bsd_netgui/backend/rc_conf_handler.py`). Interface, wlan, router,
  hostname and service keys sit on top of the parser. `validate` adds a router check and an
  interface-address check.
- **wpa_supplicant.conf** (`WpaNetworks`, `WpaConf`, `WpaRoundTrip`,
  `bsd_netgui/backend/wpa_conf_handler.py`). Network blocks are rendered by `to_block`. The
  content parser is a line-by-line state machine. `add`, `remove`, `get`, `update`, `list`
  and `validate` act on the network list. A round trip says that parsing generated text gives
  back the header, the settings and every network.
- **Backups** (`Backup`, `BackupLemmas`, `bsd_netgui/backend/backup_handler.py`). There are
  ZFS snapshots and timestamped file copies of the configuration files. Listing reads the
  backup directory in an order given as a parameter and sorts newest first; retention keeps
  the newest `keep` backups. Restoring and deleting are modelled
  over an abstract disk.
- **Profiles** (`Profiles`, `ProfileLemmas`, `bsd_netgui/backend/profile_manager.py`).
  Profiles are JSON records in a directory, with file names sanitised from the profile name.
  Templates are modelled, and applying a profile edits rc.conf and, for wifi,
  wpa_supplicant.conf.
- **Command output parsers**. These are `netstat -rn` and the netmask-to-prefix conversion
  (`Routing`), `ifconfig` (`Interfaces`), and the `ifconfig` scan list, the wlan list and the
  status lines of a wireless interface (`Wifi`). Also modelled is the argument list
  `add_route` hands to `route`.

Files, clocks, the user name and command results are parameters or fields of an abstract
`Disk`. The regular expressions the source uses are written out as functions over strings
(`Patterns`, `Text`). Python's `ipaddress` module is replaced by the dotted-quad grammar it
accepts, which refuses leading zeros.

Where the project's own description and the code differ, the model follows the code. Four
places where this matters:

- `RCConfHandler.validate` checks the router value as stored. A value written in quotes, as
  `defaultrouter="192.168.1.1"` in the test fixtures, therefore fails validation
  (`RcConf.QuotedRouterRejected`).
- `parse` on a missing file returns false and changes nothing.
- `_parse_key_value` splits the key at the first `=`, even inside quotes.
- `delete` of a key that occurs on several lines removes only the indexed (last) line. The
  earlier duplicates stay (`ConfigParsing.DeleteDuplicateLeavesEarlier`).

Applying a wifi profile writes wpa_supplicant.conf before it checks that a static setting
has an address and a netmask. A refused static wifi profile has therefore already replaced
the network (`ProfileLemmas.StaticNeedsAddress`). The model keeps this order.

## Model

| member | source | states |
|---|---|---|
| `SystemUtils.ValidAddressIsCanonical` | bsd_netgui/utils/system_utils.py:60-80 | an address is valid exactly when it is the dotted decimal rendering of four values 0..255 (no leading zeros, nothing extra) |
| `SystemUtils.FormattedIsValid` | bsd_netgui/utils/system_utils.py:60-80 | every rendering of four values 0..255 is valid, and its 32-bit value is the big-endian combination of the four |
| `SystemUtils.AddressValue` | bsd_netgui/utils/system_utils.py:116 | the integer value of a valid address is below 2^32 |
| `SystemUtils.AddressChars` | bsd_netgui/utils/system_utils.py:76-80 | a valid address is non-empty and holds only digits and dots |
| `SystemUtils.NetmaskChars` | bsd_netgui/utils/system_utils.py:100-120 | a valid netmask, in either form, is non-empty and holds only digits and dots |
| `SystemUtils.QuotedNotAddress` | bsd_netgui/utils/system_utils.py:76-80 | text that starts with a double quote is never a valid address |
| `SystemUtils.FirstPartNotOctet` | bsd_netgui/utils/system_utils.py:76-80 | an address whose first dotted part is not an octet is refused |
| `SystemUtils.NoDotNotAddress` | bsd_netgui/utils/system_utils.py:76-80 | text without a dot is never an address |
| `SystemUtils.ValidFromOctets` | bsd_netgui/utils/system_utils.py:76-80 | four octets joined by dots form a valid address that splits back into those four parts |
| `SystemUtils.Binary` | bsd_netgui/utils/system_utils.py:116 | the binary text of a value has exactly the requested width (`bin(v)[2:].zfill(32)`) |
| `SystemUtils.BinaryValue` | bsd_netgui/utils/system_utils.py:116 | the binary text of a value below 2^w reads back as that value |
| `SystemUtils.NoZeroOneIsContiguous` | bsd_netgui/utils/system_utils.py:118-120 | a bit string has no `01` transition if and only if it is a run of ones followed by a run of zeros |
| `SystemUtils.PrefixBits` | bsd_netgui/utils/system_utils.py:116-120 | the mask of prefix length p written in w bits is p ones followed by w-p zeros |
| `SystemUtils.PrefixArithmetic` | bsd_netgui/utils/system_utils.py:116-120 | the mask of prefix length p is (2^p - 1) * 2^(w-p) |
| `SystemUtils.MaskFromBits` | bsd_netgui/utils/system_utils.py:116-120 | a 32-bit value whose binary is p ones then zeros is the mask of prefix p |
| `SystemUtils.MaskHasNoZeroOne` | bsd_netgui/utils/system_utils.py:118-120 | the binary text of every prefix mask passes the `01` test |
| `SystemUtils.DottedNetmaskIsPrefixMask` | bsd_netgui/utils/system_utils.py:107-122 | a non-numeric netmask is accepted if and only if it is a valid address whose value is the mask of some prefix length 0..32 |
| `SystemUtils.NotAddressNotNetmask` | bsd_netgui/utils/system_utils.py:107-122 | a non-numeric netmask that is not a valid address is refused |
| `SystemUtils.NetmaskOfPrefix` | bsd_netgui/utils/system_utils.py:107-120 | a valid dotted address whose value is a prefix mask is accepted |
| `SystemUtils.DottedMask` | bsd_netgui/utils/system_utils.py:107-120 | the same, stated on the four dotted parts |
| `SystemUtils.OddNotNetmask` | bsd_netgui/utils/system_utils.py:107-120 | a dotted address with its lowest bit set is a netmask only when it is all ones |
| `SystemUtils.MaskValues` | bsd_netgui/utils/system_utils.py:116-120 | the masks of prefix lengths 0, 16, 24 and 32 are 0, 0xFFFF0000, 0xFFFFFF00 and 0xFFFFFFFF |
| `SystemUtils.ExampleHostAddress` | bsd_netgui/utils/system_utils.py:71-74 | `192.168.1.1` is valid |
| `SystemUtils.ExamplePrivateAddress` | bsd_netgui/utils/system_utils.py:71-74 | `10.0.0.1` is valid |
| `SystemUtils.ExampleBroadcastAddress` | bsd_netgui/utils/system_utils.py:60-80 | `255.255.255.255` is valid |
| `SystemUtils.ExampleInvalidAddresses` | bsd_netgui/utils/system_utils.py:71-74 | `256.1.1.1`, `invalid` and the empty text are refused |
| `SystemUtils.ExamplePrefixLengths` | bsd_netgui/utils/system_utils.py:94-102 | the prefix lengths `24` and `16` are netmasks |
| `SystemUtils.ExampleLongPrefix` | bsd_netgui/utils/system_utils.py:100-102 | the prefix length `33` is refused |
| `SystemUtils.ExampleInvalidNetmasks` | bsd_netgui/utils/system_utils.py:94-97 | `invalid` and `256.255.255.0` are refused |
| `SystemUtils.ExampleClassCNetmask` | bsd_netgui/utils/system_utils.py:94-97 | `255.255.255.0` is a netmask |
| `SystemUtils.ExampleClassBNetmask` | bsd_netgui/utils/system_utils.py:107-120 | `255.255.0.0` is a netmask |
| `SystemUtils.ExampleZeroNetmask` | bsd_netgui/utils/system_utils.py:107-120 | `0.0.0.0` is a netmask |
| `SystemUtils.ExampleFullNetmask` | bsd_netgui/utils/system_utils.py:107-120 | `255.255.255.255` is a netmask |
| `SystemUtils.ExampleGappedNetmask` | bsd_netgui/utils/system_utils.py:118-120 | the non-contiguous `255.255.0.255` is refused |
| `SystemUtils.IsOctet` | bsd_netgui/utils/system_utils.py:77 | the definition of one octet `IPv4Address` accepts: one to three ASCII digits, no leading zero, at most 255 |
| `SystemUtils.ValidateIpAddress` | bsd_netgui/utils/system_utils.py:60-80 | the definition of `validate_ip_address`: four `.`-separated octets; `ValidAddressIsCanonical` and `FormattedIsValid` characterise it |
| `SystemUtils.FormatIPv4` | bsd_netgui/utils/system_utils.py:77 | the definition of the canonical dotted-quad text of four values |
| `SystemUtils.ValidateNetmask` | bsd_netgui/utils/system_utils.py:83-122 | the definition of `validate_netmask`: a digit string of value at most 32, or a valid address whose 32-bit pattern has no `01`; `DottedNetmaskIsPrefixMask` and `NetmaskOfPrefix` characterise it |
| `ConfigLines.CommentFrom` | bsd_netgui/utils/config_parser.py:42-57 | the position found is the first `#` outside every quote pair at or after the start, and none is reported only when there is no such `#` |
| `ConfigLines.FindInlineComment` | bsd_netgui/utils/config_parser.py:42-57 | the character loop with its `in_quotes`/`quote_char` state finds exactly the first unquoted `#` |
| `ConfigLines.FirstCommentIsStart` | bsd_netgui/utils/config_parser.py:42-57 | the first unquoted `#` is where the comment starts |
| `ConfigLines.UnclosedQuoteNoSplit` | bsd_netgui/utils/config_parser.py:42-57 | a `#` after a quote that is never closed does not start a comment |
| `ConfigLines.NoHashNoComment` | bsd_netgui/utils/config_parser.py:42-57 | a line without `#` has no inline comment |
| `ConfigLines.CommentAfterInert` | bsd_netgui/utils/config_parser.py:42-57 | after code with no open quote and no `#`, the comment starts exactly at the appended `#` |
| `ConfigLines.ParseLine` | bsd_netgui/utils/config_parser.py:16-63 | the line keeps its raw text and number; a comment line has no key, value or comment; it has a key exactly when it has a value, and the key holds no `=` |
| `ConfigLines.ReadLine` | bsd_netgui/utils/config_parser.py:16-36 | the constructor, run with its character loop, builds the line `ParseLine` describes |
| `ConfigLines.ReparseAssignment` | bsd_netgui/utils/config_parser.py:138-175 | a trimmed `key=value` line, with or without a comment, parses back to that key, value and comment |
| `ConfigLines.QuotedInert` | bsd_netgui/utils/config_parser.py:42-57 | `key="body"` with no `#` or stray quote leaves no quote open and holds no comment |
| `ConfigLines.PlainInert` | bsd_netgui/utils/config_parser.py:42-57 | code without quotes or `#` holds no comment |
| `ConfigLines.IsCommentText` | bsd_netgui/utils/config_parser.py:27-28 | the definition of `is_comment` on the stripped line: empty, or starting with `#` |
| `ConfigLines.UnescapedQuoteAt` | bsd_netgui/utils/config_parser.py:47 | the definition of the quote test: a `"` or `'` not preceded by a backslash |
| `ConfigLines.Advance` | bsd_netgui/utils/config_parser.py:48-53 | the definition of a quote's effect: it opens a pair outside quotes and closes only the pair its own character opened |
| `ConfigLines.StateAt` | bsd_netgui/utils/config_parser.py:44-53 | the definition of `in_quotes`/`quote_char` after the loop has read a prefix; `FindInlineComment` computes it step by step |
| `ConfigLines.CommentAt` | bsd_netgui/utils/config_parser.py:54 | the definition of a `#` that starts the inline comment: outside every quote pair |
| `ConfigLines.CommentStart` | bsd_netgui/utils/config_parser.py:42-57 | the definition of where the inline comment starts; `FirstCommentIsStart` and `CommentFrom` characterise it |
| `ConfigLines.SplitComment` | bsd_netgui/utils/config_parser.py:41-57 | the definition of the code part and the inline comment of a stripped line, each stripped, the comment keeping its `#` |
| `ConfigLines.RawAssignment` | bsd_netgui/utils/config_parser.py:156-159 | the definition of the text `set` writes for an assignment; `ReparseAssignment` shows it reads back |
| `Text.TranslateNewlines` | bsd_netgui/utils/config_parser.py:108 | text-mode reading turns `\r\n` and a lone `\r` into `\n`: what is read holds no carriage return and is no longer than the file |
| `Text.TranslateNewlinesIdentity` | bsd_netgui/backend/wpa_conf_handler.py:131-132 | reading leaves the text unchanged exactly when the file holds no carriage return |
| `ConfigParsing.SplitLines` | bsd_netgui/utils/config_parser.py:108-115 | the lines file iteration yields from the text as read concatenate back to that text |
| `ConfigParsing.GetDoc` | bsd_netgui/utils/config_parser.py:123-136 | a value is found exactly for an indexed key |
| `ConfigParsing.Unindex` | bsd_netgui/utils/config_parser.py:192-193 | once a key's line is removed, the index holds every other key, with later positions one lower |
| `ConfigParsing.AllVariablesDoc` | bsd_netgui/utils/config_parser.py:259-266 | one pair per indexed key, in insertion order, each with the value `get` returns |
| `ConfigParsing.GetAfterSet` | bsd_netgui/utils/config_parser.py:138-175 | after `set`, `get` of the key returns the new value and every other key keeps its value |
| `ConfigParsing.SetExistingRewritesLine` | bsd_netgui/utils/config_parser.py:148-160 | `set` of an indexed key rewrites only its line, in place, keeping the old comment when none is given |
| `ConfigParsing.SetNewAppendsLine` | bsd_netgui/utils/config_parser.py:161-175 | `set` of a new key appends one line, numbered after the last, and leaves the earlier lines untouched |
| `ConfigParsing.SetIdempotent` | bsd_netgui/utils/config_parser.py:138-175 | setting the same key, value and comment twice is the same as setting it once |
| `ConfigParsing.ParseAppendsLines` | bsd_netgui/utils/config_parser.py:108-115 | `parse` appends one line per raw line, numbered from 1 |
| `ConfigParsing.ParseRoundTrip` | bsd_netgui/utils/config_parser.py:96-121 | writing right after parsing reproduces the text as read exactly |
| `ConfigParsing.ReadRoundTrip` | bsd_netgui/utils/config_parser.py:96-121 | writing right after parsing a file gives its newline-translated text, which is the file's own text exactly when it holds no carriage return |
| `ConfigParsing.ParseIndexesLast` | bsd_netgui/utils/config_parser.py:108-115 | the parser indexes exactly the keys found on some line, each at its last occurrence |
| `ConfigParsing.DeleteRemovesLine` | bsd_netgui/utils/config_parser.py:187-199 | `delete` of an indexed key removes its line, renumbers the rest from 1 and keeps every other key's value |
| `ConfigParsing.DeleteMissing` | bsd_netgui/utils/config_parser.py:187-188 | `delete` of a key that is not indexed reports false and changes nothing |
| `ConfigParsing.DeleteDuplicateLeavesEarlier` | bsd_netgui/utils/config_parser.py:190-193 | deleting a key that occurs on several lines leaves the earlier lines in the document, out of the index |
| `ConfigParsing.ValidateReportsDuplicates` | bsd_netgui/utils/config_parser.py:238-257 | `validate` passes exactly when no key occurs on two lines, and reports each duplicated key once, with its count, in order of first appearance |
| `ConfigParsing.AddCommentAppends` | bsd_netgui/utils/config_parser.py:268-277 | `add_comment` appends one keyless `# comment` line and changes nothing indexed |
| `ConfigParsing.AddBlankLineAppends` | bsd_netgui/utils/config_parser.py:279-282 | `add_blank_line` appends one empty keyless line and changes nothing indexed |
| `ConfigParsing.ReparseQuoted` | bsd_netgui/utils/config_parser.py:161-175 | a line `key="body"  # comment` as `set` writes it parses back to that key, quoted value and comment |
| `ConfigParsing.ExampleCommentedAssignment` | bsd_netgui/utils/config_parser.py:16-63 | `hostname="freebsd.local"  # Main hostname` parses to its key, its quoted value and its comment |
| `ConfigParsing.ExampleHashInValue` | bsd_netgui/utils/config_parser.py:148-175 | after `set("a", "x#y")`, `get` returns `x#y`, yet the new line's own parse takes `#y` as its inline comment, so a second identical `set` writes `a=x#y  #y` |
| `ConfigParsing.Without` | bsd_netgui/utils/config_parser.py:192 | the list comprehension keeps every line but the removed one |
| `ConfigParsing.Renumbered` | bsd_netgui/utils/config_parser.py:196-197 | the renumbering loop gives line i the number i+1 |
| `ConfigParsing.Render` | bsd_netgui/utils/config_parser.py:221-223 | the writing loop outputs the raw lines concatenated in order |
| `ConfigParsing.CountKeys` | bsd_netgui/utils/config_parser.py:247-251 | the counting loop gives every key its number of lines, in order of first appearance |
| `ConfigParsing.Report` | bsd_netgui/utils/config_parser.py:253-255 | the reporting loop gives one message per key counted more than once |
| `ConfigParsing.ConfigParser.constructor` | bsd_netgui/utils/config_parser.py:84-94 | a new parser is empty and bound to its file |
| `ConfigParsing.ConfigParser.Parse` | bsd_netgui/utils/config_parser.py:96-121 | false, with nothing changed, when the file does not exist; otherwise every line of the text as read in text mode (newlines translated) is appended, numbered and indexed |
| `ConfigParsing.ConfigParser.Add` | bsd_netgui/utils/config_parser.py:110-115 | the loop body appends the line and indexes its key |
| `ConfigParsing.ConfigParser.Get` | bsd_netgui/utils/config_parser.py:123-136 | a value exactly for an indexed key, and it is the value on the key's line |
| `ConfigParsing.ConfigParser.AllVariables` | bsd_netgui/utils/config_parser.py:259-266 | every indexed key with the value `get` returns |
| `ConfigParsing.ConfigParser.Set` | bsd_netgui/utils/config_parser.py:138-175 | the document becomes `SetDoc` of the old one and the index stays consistent |
| `ConfigParsing.ConfigParser.Rewrite` | bsd_netgui/utils/config_parser.py:148-160 | the existing-key branch of `set` |
| `ConfigParsing.ConfigParser.AppendNew` | bsd_netgui/utils/config_parser.py:161-175 | the new-key branch of `set` |
| `ConfigParsing.ConfigParser.Delete` | bsd_netgui/utils/config_parser.py:177-199 | the document and result are those of `DeleteDoc` |
| `ConfigParsing.ConfigParser.Write` | bsd_netgui/utils/config_parser.py:201-236 | the file holds the serialised lines, and the `.bak` copy is taken only when a backup is asked for and the file existed |
| `ConfigParsing.ConfigParser.Validate` | bsd_netgui/utils/config_parser.py:238-257 | the outcome and messages are those of `ValidateDoc` |
| `ConfigParsing.ConfigParser.AddComment` | bsd_netgui/utils/config_parser.py:268-277 | the document gains the comment line and the file is untouched |
| `ConfigParsing.ConfigParser.AddBlankLine` | bsd_netgui/utils/config_parser.py:279-282 | the document gains an empty line and the file is untouched |
| `ConfigParsing.HasKey` | bsd_netgui/utils/config_parser.py:114 | the definition of a line the parser indexes: its key is non-empty |
| `ConfigParsing.AppendLine` | bsd_netgui/utils/config_parser.py:110-115 | the definition of the loop body of `parse`; `ConfigParser.Add` performs it |
| `ConfigParsing.ParseInto` | bsd_netgui/utils/config_parser.py:108-115 | the definition of `parse` over the lines read; `ParseAppendsLines` and `ParseIndexesLast` state what it builds |
| `ConfigParsing.Serialize` | bsd_netgui/utils/config_parser.py:221-223 | the definition of the text `write` puts in the file; `ParseRoundTrip` and `ReadRoundTrip` relate it to `parse` |
| `ConfigParsing.NewComment` | bsd_netgui/utils/config_parser.py:152-153 | the definition of the stored inline comment `# <comment>`, for a non-empty comment only |
| `ConfigParsing.SetDoc` | bsd_netgui/utils/config_parser.py:138-175 | the definition of `set`; `SetExistingRewritesLine`, `SetNewAppendsLine`, `GetAfterSet` and `SetIdempotent` state it |
| `ConfigParsing.RemoveKey` | bsd_netgui/utils/config_parser.py:193 | the definition of the key list once `del self.variables[key]` drops a key from the dict's order |
| `ConfigParsing.DeleteDoc` | bsd_netgui/utils/config_parser.py:177-199 | the definition of `delete`; `DeleteRemovesLine`, `DeleteMissing` and `DeleteDuplicateLeavesEarlier` state it |
| `ConfigParsing.AddCommentDoc` | bsd_netgui/utils/config_parser.py:268-277 | the definition of `add_comment`; `AddCommentAppends` states it |
| `ConfigParsing.AddBlankLineDoc` | bsd_netgui/utils/config_parser.py:279-282 | the definition of `add_blank_line`; `AddBlankLineAppends` states it |
| `ConfigParsing.Count` | bsd_netgui/utils/config_parser.py:248-251 | the definition of `key_counts[key]`: the number of lines holding the key |
| `ConfigParsing.FirstKeys` | bsd_netgui/utils/config_parser.py:248-251 | the definition of the order of `key_counts`: each non-empty key once, by first appearance |
| `ConfigParsing.Duplicated` | bsd_netgui/utils/config_parser.py:253-254 | the definition of the keys with a count above one, in that order |
| `ConfigParsing.DuplicateMessage` | bsd_netgui/utils/config_parser.py:255 | the definition of the message `Duplicate key: <key> (appears <n> times)` |
| `ConfigParsing.ValidateDoc` | bsd_netgui/utils/config_parser.py:238-257 | the definition of `validate`; `ValidateReportsDuplicates` states it |
| `RcConf.IfconfigKeyName` | bsd_netgui/backend/rc_conf_handler.py:209-214 | an interface's name is recovered from its `ifconfig_` key when the name holds no `ifconfig_` |
| `RcConf.InterfaceConfigsNames` | bsd_netgui/backend/rc_conf_handler.py:202-216 | `get_all_interface_configs` holds exactly the names derived from indexed `ifconfig_` keys |
| `RcConf.InterfaceConfigsLast` | bsd_netgui/backend/rc_conf_handler.py:209-214 | each name holds the value of the last key giving that name |
| `RcConf.WlanParentNone` | bsd_netgui/backend/rc_conf_handler.py:218-234 | `get_wlan_parent` is none exactly when no `wlans_` key lists the wlan |
| `RcConf.WlanParentFirst` | bsd_netgui/backend/rc_conf_handler.py:229-234 | otherwise it is the parent named by the first `wlans_` key that lists the wlan |
| `RcConf.ServiceSwitch` | bsd_netgui/backend/rc_conf_handler.py:335-387 | after `enable_service` the service reads as enabled, and after `disable_service` as disabled |
| `RcConf.ServiceDefaultOff` | bsd_netgui/backend/rc_conf_handler.py:383-385 | a service that was never set is off |
| `RcConf.EnabledValues` | bsd_netgui/backend/rc_conf_handler.py:383-385 | `"YES"`, `YES` and `"yes"` count as enabled and `"NO"` does not |
| `RcConf.StaticConfigAddress` | bsd_netgui/backend/rc_conf_handler.py:102-113 | the `inet` search of `validate` finds the address `set_interface_static` stored |
| `RcConf.StaticConfigPasses` | bsd_netgui/backend/rc_conf_handler.py:102-113 | such a value gives no interface error |
| `RcConf.StaticConfigRereads` | bsd_netgui/backend/rc_conf_handler.py:168-182 | the stored static value reads back unchanged from the line `set` writes |
| `RcConf.IfconfigErrorsEmpty` | bsd_netgui/backend/rc_conf_handler.py:102-113 | the interface loop reports nothing exactly when every key passes its check |
| `RcConf.ValidateRcExact` | bsd_netgui/backend/rc_conf_handler.py:80-115 | `validate` passes exactly when the parser finds no duplicate, the router if set is a valid address, and every `ifconfig_` value with `inet` carries a valid address |
| `RcConf.QuotedRouterRejected` | bsd_netgui/backend/rc_conf_handler.py:95-99 | a router stored as `"192.168.1.1"`, quotes included, makes `validate` fail |
| `RcConf.SetKeepsNoDuplicates` | bsd_netgui/backend/rc_conf_handler.py:402-419 | `set` keeps every key on at most one line in a parsed document |
| `RcConf.SetStaticKeepsValid` | bsd_netgui/backend/rc_conf_handler.py:151-187 | a static configuration that `set_interface_static` accepts never makes a passing `validate` fail |
| `RcConf.CheckInterface` | bsd_netgui/backend/rc_conf_handler.py:103-113 | the loop body gives the interface check's messages for one key |
| `RcConf.CheckInterfaces` | bsd_netgui/backend/rc_conf_handler.py:102-113 | the loop gives the messages of every key in index order |
| `RcConf.RCConfHandler.constructor` | bsd_netgui/backend/rc_conf_handler.py:26-36 | a new handler has an empty, unloaded parser on its file |
| `RcConf.RCConfHandler.Load` | bsd_netgui/backend/rc_conf_handler.py:38-56 | a missing file counts as loaded and empty; otherwise the file parsed from its newline-translated text |
| `RcConf.RCConfHandler.Save` | bsd_netgui/backend/rc_conf_handler.py:58-78 | written exactly when loaded and `validate` passes; the document never changes |
| `RcConf.RCConfHandler.Validate` | bsd_netgui/backend/rc_conf_handler.py:80-115 | the outcome and messages of `ValidateRcDoc` |
| `RcConf.RCConfHandler.SetInterfaceDhcp` | bsd_netgui/backend/rc_conf_handler.py:132-149 | stores `DHCP` under `ifconfig_<iface>` |
| `RcConf.RCConfHandler.SetInterfaceStatic` | bsd_netgui/backend/rc_conf_handler.py:151-187 | accepted exactly when the address and netmask are valid, then stores `inet <ip> netmask <mask>` plus options; otherwise nothing changes |
| `RcConf.RCConfHandler.RemoveInterfaceConfig` | bsd_netgui/backend/rc_conf_handler.py:189-200 | deletes `ifconfig_<iface>` |
| `RcConf.RCConfHandler.GetAllInterfaceConfigs` | bsd_netgui/backend/rc_conf_handler.py:202-216 | the loop over the index gives `InterfaceConfigs` |
| `RcConf.RCConfHandler.GetWlanParent` | bsd_netgui/backend/rc_conf_handler.py:218-234 | the loop stopping at the first match gives `WlanParent` |
| `RcConf.RCConfHandler.SetWlanParent` | bsd_netgui/backend/rc_conf_handler.py:236-256 | stores the wlan under `wlans_<parent>` |
| `RcConf.RCConfHandler.SetDefaultRouter` | bsd_netgui/backend/rc_conf_handler.py:267-289 | accepted exactly for a valid address, which is then stored; otherwise nothing changes |
| `RcConf.RCConfHandler.RemoveDefaultRouter` | bsd_netgui/backend/rc_conf_handler.py:291-300 | deletes `defaultrouter` |
| `RcConf.RCConfHandler.SetHostname` | bsd_netgui/backend/rc_conf_handler.py:311-333 | refused when blank; otherwise stores the stripped name |
| `RcConf.RCConfHandler.EnableService` | bsd_netgui/backend/rc_conf_handler.py:335-352 | stores `"YES"` under `<service>_enable` |
| `RcConf.RCConfHandler.DisableService` | bsd_netgui/backend/rc_conf_handler.py:354-371 | stores `"NO"` under `<service>_enable` |
| `RcConf.RCConfHandler.Set` | bsd_netgui/backend/rc_conf_handler.py:402-419 | passes the key, value and comment to the parser's `set` |
| `RcConf.RCConfHandler.Delete` | bsd_netgui/backend/rc_conf_handler.py:421-431 | passes the key to the parser's `delete` |
| `RcConf.IfconfigKey` | bsd_netgui/backend/rc_conf_handler.py:129 | the definition of an interface's key, `ifconfig_<iface>`; `IfconfigKeyName` reads the name back |
| `RcConf.WlansKey` | bsd_netgui/backend/rc_conf_handler.py:248 | the definition of a parent's key, `wlans_<parent>` |
| `RcConf.EnableKey` | bsd_netgui/backend/rc_conf_handler.py:346 | the definition of a service's key, `<service>_enable` |
| `RcConf.StaticConfig` | bsd_netgui/backend/rc_conf_handler.py:177-179 | the definition of the static value `inet <ip> netmask <mask>`, with the options after a space when non-empty; `StaticConfigAddress` and `StaticConfigRereads` state how it reads back |
| `RcConf.InetAfter` | bsd_netgui/backend/rc_conf_handler.py:108 | the definition of the group of `inet\s+(\S+)` after the letters `inet`: whitespace, then the token up to the next whitespace |
| `RcConf.InetAddress` | bsd_netgui/backend/rc_conf_handler.py:108-111 | the definition of `re.search(r'inet\s+(\S+)', value).group(1)`, through `InetFrom` |
| `RcConf.IsIfconfigKey` | bsd_netgui/backend/rc_conf_handler.py:103 | the definition of `key.startswith('ifconfig_')` |
| `RcConf.IfconfigError` | bsd_netgui/backend/rc_conf_handler.py:103-113 | the definition of one key's check; `CheckInterface` performs it |
| `RcConf.IfconfigErrors` | bsd_netgui/backend/rc_conf_handler.py:102-113 | the definition of the loop over the indexed keys; `IfconfigErrorsEmpty` states when it is empty |
| `RcConf.RouterErrors` | bsd_netgui/backend/rc_conf_handler.py:95-99 | the definition of the router check on the stored value, quotes included; `QuotedRouterRejected` shows a quoted address fails |
| `RcConf.ValidateRcDoc` | bsd_netgui/backend/rc_conf_handler.py:80-115 | the definition of `validate`: the parser's messages, then the router's, then the interfaces'; `ValidateRcExact` states when it passes |
| `RcConf.EnabledValue` | bsd_netgui/backend/rc_conf_handler.py:385 | the definition of `value.strip('"').upper() == "YES"`; `EnabledValues` lists the values that count |
| `RcConf.ServiceEnabled` | bsd_netgui/backend/rc_conf_handler.py:373-385 | the definition of `is_service_enabled` with the default `NO`; `ServiceSwitch` and `ServiceDefaultOff` state it |
| `RcConf.InterfaceConfigs` | bsd_netgui/backend/rc_conf_handler.py:202-214 | the definition of `get_all_interface_configs`; `InterfaceConfigsNames` and `InterfaceConfigsLast` state it |
| `RcConf.ListsWlan` | bsd_netgui/backend/rc_conf_handler.py:230-232 | the definition of a `wlans_` key whose non-empty value contains the wlan |
| `RcConf.WlanParent` | bsd_netgui/backend/rc_conf_handler.py:218-234 | the definition of `get_wlan_parent`; `WlanParentNone` and `WlanParentFirst` state it |
| `RcConf.RouterOk` | bsd_netgui/backend/rc_conf_handler.py:95-99 | the definition of a router setting the check accepts: unset, empty or a valid address |
| `RcConf.RCConfHandler.GetInterfaceConfig` | bsd_netgui/backend/rc_conf_handler.py:119-130 | the definition of `get_interface_config`: the parser's value of `ifconfig_<iface>` |
| `RcConf.RCConfHandler.GetDefaultRouter` | bsd_netgui/backend/rc_conf_handler.py:258-265 | the definition of `get_default_router`: the parser's value of `defaultrouter` |
| `RcConf.RCConfHandler.GetHostname` | bsd_netgui/backend/rc_conf_handler.py:302-309 | the definition of `get_hostname`: the parser's value of `hostname` |
| `RcConf.RCConfHandler.IsServiceEnabled` | bsd_netgui/backend/rc_conf_handler.py:373-385 | the definition of `is_service_enabled` on the handler's document |
| `RcConf.RCConfHandler.Get` | bsd_netgui/backend/rc_conf_handler.py:389-400 | the definition of `get`: the parser's value, the caller supplying the default |
| `RcConf.RCConfHandler.GetAll` | bsd_netgui/backend/rc_conf_handler.py:433-440 | the definition of `get_all`: the parser's variables |
| `RcConf.InetFrom` | bsd_netgui/backend/rc_conf_handler.py:108 | the address the search captures after `inet` is a non-empty token without whitespace |
| `WpaNetworks.DictSet` | bsd_netgui/backend/wpa_conf_handler.py:247-249 | assigning a dictionary key replaces its value in place or appends it, and leaves every other key as it was |
| `WpaNetworks.SortByKeyCorrect` | bsd_netgui/backend/wpa_conf_handler.py:70-71 | the other parameters are rendered sorted by key and are a permutation of the originals |
| `WpaNetworks.BlockSsid` | bsd_netgui/backend/wpa_conf_handler.py:43-44 | `to_block` writes `ssid` once, quoted, exactly when it is non-empty |
| `WpaNetworks.BlockPsk` | bsd_netgui/backend/wpa_conf_handler.py:46-54 | a psk line appears only for a mode other than `NONE` with a non-empty psk, and then once |
| `WpaNetworks.PskEncoding` | bsd_netgui/backend/wpa_conf_handler.py:49-54 | a psk is written bare exactly when it is 64 hex digits, and quoted otherwise |
| `WpaNetworks.BlockKeyMgmt` | bsd_netgui/backend/wpa_conf_handler.py:46-57 | `NONE` gives `key_mgmt=NONE`; otherwise a `key_mgmt` line appears exactly when the mode is not `WPA-PSK` |
| `WpaNetworks.BlockOptions` | bsd_netgui/backend/wpa_conf_handler.py:60-67 | `priority`, `scan_ssid` and `disabled` are written only when not at their defaults |
| `WpaNetworks.BlockPriority` | bsd_netgui/backend/wpa_conf_handler.py:60-61 | the priority line appears exactly when the priority is not 0 |
| `WpaNetworks.BlockScanSsid` | bsd_netgui/backend/wpa_conf_handler.py:63-64 | the `scan_ssid` line appears exactly when it is not 0 |
| `WpaNetworks.BlockDisabled` | bsd_netgui/backend/wpa_conf_handler.py:66-67 | `disabled=1` appears exactly for a disabled network |
| `WpaNetworks.BodyEndsWithParams` | bsd_netgui/backend/wpa_conf_handler.py:69-71 | the other parameters are the last lines of the body, in key order |
| `WpaNetworks.BlockLineKeys` | bsd_netgui/backend/wpa_conf_handler.py:27-75 | the block's lines assign exactly the keys of its body items, and the comment, `network={` and `}` lines assign none |
| `WpaNetworks.Unquote` | bsd_netgui/backend/wpa_conf_handler.py:224-226 | one surrounding pair of double quotes is removed, and nothing else changes |
| `WpaNetworks.UnquoteQuote` | bsd_netgui/backend/wpa_conf_handler.py:224-226 | unquoting a quoted text gives the text back |
| `WpaNetworks.NetworkParamReads` | bsd_netgui/backend/wpa_conf_handler.py:209-249 | how each network key is read: unquoted, an unparsable priority or `scan_ssid` as 0, `disabled` for `1` or any case of `true`, an unknown key into `other_params` only |
| `WpaNetworks.NetworkParamSplit` | bsd_netgui/backend/wpa_conf_handler.py:217-226 | a line `key=value` sets `key` to the unquoted value |
| `WpaNetworks.NewNetworkSpec` | bsd_netgui/backend/wpa_conf_handler.py:364-402 | the network `add_network` builds: the given ssid and priority, an open network for `NONE` or no password, otherwise the psk with SAE for WPA3/SAE and WPA-PSK else |
| `WpaNetworks.Lookup` | bsd_netgui/backend/wpa_conf_handler.py:24 | the definition of reading `other_params[key]` from the dict's items in insertion order |
| `WpaNetworks.SortByKey` | bsd_netgui/backend/wpa_conf_handler.py:70 | the definition of `sorted(other_params.items())`; `SortByKeyCorrect` states it sorted and a permutation |
| `WpaNetworks.IsHexPsk` | bsd_netgui/backend/wpa_conf_handler.py:51 | the definition of a raw key: exactly 64 hexadecimal digits |
| `WpaNetworks.PskText` | bsd_netgui/backend/wpa_conf_handler.py:49-54 | the definition of the psk text: bare for a raw key, quoted otherwise; `PskEncoding` states it |
| `WpaNetworks.SsidItems` | bsd_netgui/backend/wpa_conf_handler.py:43-44 | the definition of the ssid line, quoted, for a non-empty ssid; `BlockSsid` states it |
| `WpaNetworks.SecurityItems` | bsd_netgui/backend/wpa_conf_handler.py:46-57 | the definition of the psk and `key_mgmt` lines; `BlockPsk` and `BlockKeyMgmt` state them |
| `WpaNetworks.OptionItems` | bsd_netgui/backend/wpa_conf_handler.py:60-67 | the definition of the `priority`, `scan_ssid` and `disabled` lines; `BlockOptions` states them |
| `WpaNetworks.BodyItems` | bsd_netgui/backend/wpa_conf_handler.py:42-71 | the definition of the block's assignments in order; `BlockLineKeys` states the keys they assign |
| `WpaNetworks.CommentLines` | bsd_netgui/backend/wpa_conf_handler.py:37-38 | the definition of the comment lines `# <comment>` |
| `WpaNetworks.ParamLines` | bsd_netgui/backend/wpa_conf_handler.py:44-71 | the definition of an assignment line, indented by four spaces |
| `WpaNetworks.BlockLines` | bsd_netgui/backend/wpa_conf_handler.py:34-73 | the definition of the lines of a block: comments, `network={`, the assignments, `}` |
| `WpaNetworks.ToBlock` | bsd_netgui/backend/wpa_conf_handler.py:27-75 | the definition of `to_block`: the lines joined by `\n`; `WpaRoundTrip.GenerateThenParse` shows a block reads back |
| `WpaNetworks.SetParam` | bsd_netgui/backend/wpa_conf_handler.py:229-249 | the definition of a key's effect on the network being parsed; `NetworkParamReads` states it |
| `WpaNetworks.NetworkParam` | bsd_netgui/backend/wpa_conf_handler.py:209-249 | the definition of `_parse_network_param`; `NetworkParamSplit` and `NetworkParamReads` state it |
| `WpaNetworks.NewNetwork` | bsd_netgui/backend/wpa_conf_handler.py:381-395 | the definition of the network `add_network` builds; `NewNetworkSpec` states it |
| `WpaNetworks.Summarize` | bsd_netgui/backend/wpa_conf_handler.py:475-481 | the definition of one entry of `list_networks`: ssid, `key_mgmt`, priority, `scan_ssid` and `disabled` |
| `WpaNetworks.Quote` | bsd_netgui/backend/wpa_conf_handler.py:44 | the definition of a value written between double quotes |
| `WpaConf.GlobalParamReads` | bsd_netgui/backend/wpa_conf_handler.py:251-275 | global values are kept as written, an unparsable `update_config` becomes 1, an unknown key goes to `global_params` only |
| `WpaConf.GlobalParamSplit` | bsd_netgui/backend/wpa_conf_handler.py:251-275 | a line `key=value` sets the global `key` to `value` |
| `WpaConf.StepCases` | bsd_netgui/backend/wpa_conf_handler.py:156-203 | what one line does to the parser state: comments queued, `network={` opens a block, `}` closes it, other lines set a parameter |
| `WpaConf.SeenKeepsHeader` | bsd_netgui/backend/wpa_conf_handler.py:165-173 | once a global line is seen the header comments are fixed |
| `WpaConf.ParseKeepsNetworks` | bsd_netgui/backend/wpa_conf_handler.py:184-190 | parsing never drops or alters a network already read; networks only arrive at the end |
| `WpaConf.FirstWithSsid` | bsd_netgui/backend/wpa_conf_handler.py:424-437 | the index found holds the ssid and no earlier network does; none is found only when no network has it |
| `WpaConf.WithoutSsidSpec` | bsd_netgui/backend/wpa_conf_handler.py:414-422 | removal keeps exactly the networks with another ssid, in order, and shortens the list exactly when one had it |
| `WpaConf.UpdateOpenNetwork` | bsd_netgui/backend/wpa_conf_handler.py:452-464 | `update_network` leaves the mode alone, so a new password on an open network is never written |
| `WpaConf.AllNetworkErrorsEmpty` | bsd_netgui/backend/wpa_conf_handler.py:504-513 | there are no per-network messages exactly when every network passes its check |
| `WpaConf.ValidateExact` | bsd_netgui/backend/wpa_conf_handler.py:489-515 | valid exactly when the non-empty ssids are distinct and every network has an ssid, an accepted mode and, unless open, a password; the messages are the duplicate report and the per-network ones |
| `WpaConf.WPAConfHandler.constructor` | bsd_netgui/backend/wpa_conf_handler.py:93-115 | a new, unloaded handler holds the default settings and no network |
| `WpaConf.WPAConfHandler.Load` | bsd_netgui/backend/wpa_conf_handler.py:117-140 | a missing file leaves the handler as it was; otherwise the content, newlines translated, is parsed over the current settings |
| `WpaConf.WPAConfHandler.ParseFile` | bsd_netgui/backend/wpa_conf_handler.py:142-207 | the loop over the lines gives `ParseContent` |
| `WpaConf.WPAConfHandler.ParseGlobalParam` | bsd_netgui/backend/wpa_conf_handler.py:251-275 | the settings become `GlobalParam` of the line |
| `WpaConf.WPAConfHandler.Save` | bsd_netgui/backend/wpa_conf_handler.py:277-323 | written exactly when loaded: the file holds the generated text, with the backup copy when asked and the file existed; nothing is validated first |
| `WpaConf.WPAConfHandler.GenerateContent` | bsd_netgui/backend/wpa_conf_handler.py:325-362 | the text is `Generate` of the configuration |
| `WpaConf.WPAConfHandler.AddNetwork` | bsd_netgui/backend/wpa_conf_handler.py:364-402 | the network `NewNetwork` builds is appended to the list |
| `WpaConf.WPAConfHandler.RemoveNetwork` | bsd_netgui/backend/wpa_conf_handler.py:404-422 | every network with the ssid goes; true exactly when the list got shorter |
| `WpaConf.WPAConfHandler.GetNetwork` | bsd_netgui/backend/wpa_conf_handler.py:424-437 | the first network with the ssid, if any |
| `WpaConf.WPAConfHandler.UpdateNetwork` | bsd_netgui/backend/wpa_conf_handler.py:439-464 | only the first match changes, and only in the supplied fields; false when none matches |
| `WpaConf.WPAConfHandler.ListNetworks` | bsd_netgui/backend/wpa_conf_handler.py:466-482 | one summary per network, in order, without the psk |
| `WpaConf.WPAConfHandler.ClearNetworks` | bsd_netgui/backend/wpa_conf_handler.py:484-487 | no network is left |
| `WpaConf.WPAConfHandler.Validate` | bsd_netgui/backend/wpa_conf_handler.py:489-515 | the outcome and messages of `ValidateConf` |
| `WpaConf.RenderComments` | bsd_netgui/backend/wpa_conf_handler.py:335-336 | one `# ` line per header comment |
| `WpaConf.RenderGlobals` | bsd_netgui/backend/wpa_conf_handler.py:351-352 | one `key=value` line per global parameter, sorted by key |
| `WpaConf.RenderNetworks` | bsd_netgui/backend/wpa_conf_handler.py:358-360 | each network's block followed by an empty line |
| `WpaConf.CheckNetworks` | bsd_netgui/backend/wpa_conf_handler.py:504-513 | the per-network messages, network by network |
| `WpaConf.SetGlobal` | bsd_netgui/backend/wpa_conf_handler.py:265-275 | the definition of a global key's effect: the control interface settings, `update_config` read as an integer or 1, anything else into `global_params` |
| `WpaConf.GlobalParam` | bsd_netgui/backend/wpa_conf_handler.py:251-275 | the definition of `_parse_global_param`; `GlobalParamSplit` and `GlobalParamReads` state it |
| `WpaConf.Start` | bsd_netgui/backend/wpa_conf_handler.py:149-154 | the definition of the loop state before the first line: no pending comments, no block, no global line seen |
| `WpaConf.Step` | bsd_netgui/backend/wpa_conf_handler.py:156-203 | the definition of one pass of the loop; `StepCases` states it |
| `WpaConf.ParseLines` | bsd_netgui/backend/wpa_conf_handler.py:156-203 | the definition of the loop over the lines; `ParseKeepsNetworks` and `SeenKeepsHeader` state what it keeps |
| `WpaConf.Finish` | bsd_netgui/backend/wpa_conf_handler.py:206-207 | the definition of the last step: pending comments become the header when no global line was seen |
| `WpaConf.ParseContent` | bsd_netgui/backend/wpa_conf_handler.py:142-207 | the definition of `_parse_content` on the text split at `\n`; `WPAConfHandler.ParseFile` computes it and `WpaRoundTrip.GenerateThenParse` inverts `Generate` with it |
| `WpaConf.GlobalLines` | bsd_netgui/backend/wpa_conf_handler.py:351-352 | the definition of the global `key=value` lines |
| `WpaConf.HeaderLines` | bsd_netgui/backend/wpa_conf_handler.py:335-339 | the definition of the header: one `# ` line per comment, then an empty line when there are any |
| `WpaConf.SettingLines` | bsd_netgui/backend/wpa_conf_handler.py:342-352 | the definition of the settings: each non-empty control interface setting, `update_config`, then the sorted global parameters |
| `WpaConf.NetworkChunks` | bsd_netgui/backend/wpa_conf_handler.py:358-360 | the definition of each block followed by an empty line |
| `WpaConf.ContentLines` | bsd_netgui/backend/wpa_conf_handler.py:332-360 | the definition of the list `_generate_content` joins, with an empty line after a non-empty preamble |
| `WpaConf.Generate` | bsd_netgui/backend/wpa_conf_handler.py:325-362 | the definition of `_generate_content`: those lines joined by `\n`; `WpaRoundTrip.GenerateThenParse` reads it back |
| `WpaConf.NetworkNamed` | bsd_netgui/backend/wpa_conf_handler.py:424-437 | the definition of `get_network`: the network at the index `FirstWithSsid` finds |
| `WpaConf.WithoutSsid` | bsd_netgui/backend/wpa_conf_handler.py:415 | the definition of the comprehension dropping the networks with the ssid; `WithoutSsidSpec` states it |
| `WpaConf.Updated` | bsd_netgui/backend/wpa_conf_handler.py:457-461 | the definition of what `update_network` changes: a supplied password and a supplied priority; `UpdateOpenNetwork` shows an open network stays open |
| `WpaConf.Ssids` | bsd_netgui/backend/wpa_conf_handler.py:499 | the definition of the non-empty ssids in order |
| `WpaConf.Repeated` | bsd_netgui/backend/wpa_conf_handler.py:501 | the definition of the ssids that occur more than once, with repeats |
| `WpaConf.SetRepr` | bsd_netgui/backend/wpa_conf_handler.py:502 | the definition of the text of `set(duplicates)` (see Left out) |
| `WpaConf.NetworkErrors` | bsd_netgui/backend/wpa_conf_handler.py:505-513 | the definition of the three checks on one network, in order |
| `WpaConf.AllNetworkErrors` | bsd_netgui/backend/wpa_conf_handler.py:505-513 | the definition of the messages of every network in order; `AllNetworkErrorsEmpty` states when there are none |
| `WpaConf.NetworkOk` | bsd_netgui/backend/wpa_conf_handler.py:506-513 | the definition of a network that passes the three checks |
| `WpaConf.ValidateConf` | bsd_netgui/backend/wpa_conf_handler.py:489-515 | the definition of `validate`; `ValidateExact` characterises it |
| `WpaConf.SetOf` | bsd_netgui/backend/wpa_conf_handler.py:500 | the definition of `set(ssids)`; `SetOfSize` relates its size to repeats |
| `WpaConf.CountOf` | bsd_netgui/backend/wpa_conf_handler.py:501 | the definition of `ssids.count(s)` |
| `WpaConf.RepeatedIn` | bsd_netgui/backend/wpa_conf_handler.py:501 | the definition of the comprehension keeping the elements counted more than once |
| `WpaConf.Dedup` | bsd_netgui/backend/wpa_conf_handler.py:502 | the definition of the members of `set(duplicates)` listed once each, in first-occurrence order (see Left out under `WpaConf.SetRepr`) |
| `WpaConf.SsidText` | bsd_netgui/backend/wpa_conf_handler.py:510-513 | the definition of what the f-string prints for an ssid, `None` when there is none |
| `WpaRoundTrip.CommentStep` | bsd_netgui/backend/wpa_conf_handler.py:165-173 | a `# c` line outside a block queues `c` |
| `WpaRoundTrip.BodyStep` | bsd_netgui/backend/wpa_conf_handler.py:193-194 | a parameter line inside a block sets that parameter |
| `WpaRoundTrip.GlobalStep` | bsd_netgui/backend/wpa_conf_handler.py:195-201 | a global line outside a block sets that setting |
| `WpaRoundTrip.RebuiltRecovers` | bsd_netgui/backend/wpa_conf_handler.py:209-249 | parsing a writable network's body rebuilds every listed field |
| `WpaRoundTrip.ChunksParse` | bsd_netgui/backend/wpa_conf_handler.py:156-203 | parsing the generated blocks appends one network per block, each recovering its original |
| `WpaRoundTrip.GeneratedLines` | bsd_netgui/backend/wpa_conf_handler.py:325-362 | the generated text splits back into its lines |
| `WpaRoundTrip.FlatParse` | bsd_netgui/backend/wpa_conf_handler.py:142-207 | parsing the lines of a writable configuration gives back its header, its settings and every network, in order |
| `WpaRoundTrip.GenerateThenParse` | bsd_netgui/backend/wpa_conf_handler.py:325-362 | generating then parsing on a fresh handler gives back the header, the control interface settings, `update_config` and every network's comments, ssid, psk, mode, priority, scan and disabled flags |
| `Routing.BinDigits` | bsd_netgui/backend/routing_handler.py:208 | the digits of `bin(n)` are a non-empty bit string |
| `Routing.ZFill` | bsd_netgui/backend/routing_handler.py:208 | `zfill` pads to the requested width and never shortens |
| `Routing.OctetValues` | bsd_netgui/backend/routing_handler.py:208 | when every part is read by `int()`, there is one value per part |
| `Routing.OctetValuesFour` | bsd_netgui/backend/routing_handler.py:208 | four parts are read exactly when each of them is, giving their values in order |
| `Routing.BinTail` | bsd_netgui/backend/routing_handler.py:208 | `bin(i)[2:]` is the digits of the magnitude, behind a `b` for a negative value |
| `Routing.ZFillOnes` | bsd_netgui/backend/routing_handler.py:208-209 | zero filling adds no `1` to text that does not start with a sign |
| `Routing.OctetBitsOnes` | bsd_netgui/backend/routing_handler.py:208-209 | each octet's text carries exactly the one bits of its magnitude, negative values included |
| `Routing.JoinedBitsOnes` | bsd_netgui/backend/routing_handler.py:208-209 | the joined text has as many `1`s as the octets' magnitudes have one bits |
| `Routing.PrefixOfValues` | bsd_netgui/backend/routing_handler.py:203-211 | when the four parts parse, the result is the decimal count of their one bits |
| `Routing.NetmaskToPrefixDefault` | bsd_netgui/backend/routing_handler.py:203-214 | the result is `32` unless the text splits into exactly four parts that `int()` accepts |
| `Routing.NetmaskToPrefixCount` | bsd_netgui/backend/routing_handler.py:207-211 | otherwise it is the count of one bits, with no check of contiguity or of the octet range |
| `Routing.PrefixUnparsed` | bsd_netgui/backend/routing_handler.py:212-214 | four parts of which one is not an integer give `32` |
| `Routing.BinDigitsFilled` | bsd_netgui/backend/routing_handler.py:208 | `bin(v)[2:]` zero-filled to w places is the w-bit binary of v when v fits |
| `Routing.OctetBitsBinary` | bsd_netgui/backend/routing_handler.py:208 | the text of an octet in 0..255 is its 8-bit binary |
| `Routing.JoinedBitsValue` | bsd_netgui/backend/routing_handler.py:208 | four octets in 0..255, joined, are the 32-bit binary of their address value |
| `Routing.BinaryFour` | bsd_netgui/backend/routing_handler.py:208 | the 32-bit binary of an address value is that of its four octets in order |
| `Routing.MaskOnes` | bsd_netgui/backend/routing_handler.py:209 | the mask of prefix length p has p `1`s in its 32-bit binary |
| `Routing.PrefixOfMask` | bsd_netgui/backend/routing_handler.py:191-214 | a valid address that is the mask of prefix length p converts to p |
| `Routing.ExampleClassCPrefix` | bsd_netgui/backend/routing_handler.py:196-199 | `255.255.255.0` converts to `24` |
| `Routing.ExampleGappedMask` | bsd_netgui/backend/routing_handler.py:207-211 | the non-contiguous `255.0.255.0` converts to `16`: only bits are counted |
| `Routing.AddRouteArgvCases` | bsd_netgui/backend/routing_handler.py:62-75 | a valid dotted netmask reaches `route` as `-net dest/<prefix>`, a bare prefix length as given, and no netmask gives a host route |
| `Routing.LastIface` | bsd_netgui/backend/routing_handler.py:181-185 | the field found is the last one at or after the fourth that is neither digits nor `-`, and none is found only when no such field exists |
| `Routing.PickIface` | bsd_netgui/backend/routing_handler.py:177-185 | the reversed search gives that field, or the fourth field when there is none |
| `Routing.ParseNetstatOutput` | bsd_netgui/backend/routing_handler.py:138-189 | the loop gives `NetstatRoutes` of the output |
| `Routing.ScanNetstatLine` | bsd_netgui/backend/routing_handler.py:151-187 | one pass of the loop body yields exactly what that line contributes and the table state after it |
| `Routing.NetstatPreamble` | bsd_netgui/backend/routing_handler.py:155-160 | nothing before the line opening the table yields a route |
| `Routing.NetstatNoTable` | bsd_netgui/backend/routing_handler.py:155-160 | output without a table heading has no routes |
| `Routing.NetstatInTable` | bsd_netgui/backend/routing_handler.py:151-187 | inside the table each line contributes on its own, in order |
| `Routing.NetstatLine` | bsd_netgui/backend/routing_handler.py:159-187 | a line inside the table gives nothing when it re-opens the table, else its route, if it has at least four fields and is not a heading |
| `Routing.NetstatRouteShape` | bsd_netgui/backend/routing_handler.py:172-179 | every route has an empty netmask and a metric that is all digits or `0` |
| `Routing.Bin` | bsd_netgui/backend/routing_handler.py:208 | the definition of `bin(int(octet))`: `0b` and the digits, after a `-` for a negative value; `BinTail` states what `[2:]` keeps |
| `Routing.OctetBits` | bsd_netgui/backend/routing_handler.py:208 | the definition of one octet's text, `bin(int(octet))[2:].zfill(8)`; `OctetBitsOnes` and `OctetBitsBinary` state it |
| `Routing.JoinedBits` | bsd_netgui/backend/routing_handler.py:208 | the definition of the joined text of the octets; `JoinedBitsOnes` and `JoinedBitsValue` state it |
| `Routing.NetmaskToPrefix` | bsd_netgui/backend/routing_handler.py:191-214 | the definition of `_netmask_to_prefix`; `NetmaskToPrefixDefault`, `NetmaskToPrefixCount`, `PrefixUnparsed` and `PrefixOfMask` state it |
| `Routing.AddRouteArgv` | bsd_netgui/backend/routing_handler.py:62-75 | the definition of the argument list of `add_route`; `AddRouteArgvCases` states it |
| `Routing.OpensTable` | bsd_netgui/backend/routing_handler.py:155 | the definition of a line that opens the table: it holds `Routing tables` or `Destination` |
| `Routing.IsHeading` | bsd_netgui/backend/routing_handler.py:163 | the definition of a heading line: it starts with `Internet` or `Destination` |
| `Routing.IfaceOf` | bsd_netgui/backend/routing_handler.py:177-185 | the definition of the interface column; `PickIface` computes it |
| `Routing.MetricOf` | bsd_netgui/backend/routing_handler.py:178 | the definition of the metric: the fifth field when it is all digits, else `0` |
| `Routing.RouteLine` | bsd_netgui/backend/routing_handler.py:169-187 | the definition of the route of a line with at least four fields; `NetstatRouteShape` states its shape |
| `Routing.Netstat` | bsd_netgui/backend/routing_handler.py:151-187 | the definition of the loop over the lines; `NetstatPreamble`, `NetstatInTable` and `NetstatLine` state it |
| `Routing.NetstatRoutes` | bsd_netgui/backend/routing_handler.py:138-189 | the definition of `_parse_netstat_output`; `ParseNetstatOutput` computes it and `NetstatNoTable` states it |
| `Interfaces.HeaderName` | bsd_netgui/backend/interface_handler.py:202 | the name found is a non-empty token without whitespace, and the line is that name, `:` and the rest |
| `Interfaces.AngleGroup` | bsd_netgui/backend/interface_handler.py:202 | the flag group found is non-empty and holds no `>` |
| `Interfaces.HeaderMatch` | bsd_netgui/backend/interface_handler.py:202-205 | a matched header gives a non-empty name and a non-empty flag list without `>` |
| `Interfaces.HeaderOf` | bsd_netgui/backend/interface_handler.py:202-205 | a header `<name>: flags=<hex><<flags>>...` yields that name and that flag list |
| `Interfaces.Apply` | bsd_netgui/backend/interface_handler.py:227-252 | an `inet` line sets only the address and netmask, an `ether` line only the MAC, any other line nothing |
| `Interfaces.InetLine` | bsd_netgui/backend/interface_handler.py:227-246 | a line `inet <ip> netmask <mask>` sets the address and the converted netmask |
| `Interfaces.EtherLine` | bsd_netgui/backend/interface_handler.py:249-252 | a line `ether <mac>` sets the hardware address |
| `Interfaces.DottedBytesValid` | bsd_netgui/backend/interface_handler.py:233-242 | a hexadecimal netmask becomes a valid dotted address whose value is the number's low 32 bits |
| `Interfaces.ClassCHexNetmask` | bsd_netgui/backend/interface_handler.py:233-242 | `0xffffff00` is stored as `255.255.255.0` |
| `Interfaces.ScanLine` | bsd_netgui/backend/interface_handler.py:194-252 | the loop body keeps the list, the open record and its aliases equal to the scan of the lines so far |
| `Interfaces.ScanKind` | bsd_netgui/backend/interface_handler.py:196-252 | one line's effect on the list and the open record is that of `Step` |
| `Interfaces.ParseIfconfigOutput` | bsd_netgui/backend/interface_handler.py:181-258 | the loop, with list entries that alias the open record rewritten when it changes, gives `ParseIfconfig` |
| `Interfaces.InterfaceDetails` | bsd_netgui/backend/interface_handler.py:56-63 | a record exactly when the command succeeds and the output has one, and then it is the first |
| `Interfaces.OneBlock` | bsd_netgui/backend/interface_handler.py:194-256 | a matching header followed by detail lines gives exactly one record, updated by each line in turn |
| `Interfaces.OneRecordPerHeader` | bsd_netgui/backend/interface_handler.py:196-256 | when every block-opening line matches the header pattern there is one record per such line |
| `Interfaces.RepeatedRecord` | bsd_netgui/backend/interface_handler.py:196-205 | a block-opening line that fails the header pattern appends the open record again, and both entries show what later lines write |
| `Interfaces.SkippedLines` | bsd_netgui/backend/interface_handler.py:222 | blank lines, and detail lines before the first header, change nothing |
| `Interfaces.NewRecord` | bsd_netgui/backend/interface_handler.py:204-220 | the definition of the record a matching header starts: `up` exactly when the flags contain `UP`, empty addresses, and the MTU of `mtu\s+(\d+)` on the line |
| `Interfaces.HexValue` | bsd_netgui/backend/interface_handler.py:235 | the definition of the value of hexadecimal digits, underscores skipped |
| `Interfaces.HexLiteral` | bsd_netgui/backend/interface_handler.py:235 | the definition of the digits `int(text, 16)` accepts: hexadecimal digits with single underscores between them |
| `Interfaces.ParseHex` | bsd_netgui/backend/interface_handler.py:233-244 | the definition of `int(netmask_hex, 16)` on a `0x` text, none for the `ValueError` |
| `Interfaces.DottedBytes` | bsd_netgui/backend/interface_handler.py:236-242 | the definition of the four shifted and masked bytes joined with dots; `DottedBytesValid` states they form a valid netmask |
| `Interfaces.ConvertNetmask` | bsd_netgui/backend/interface_handler.py:232-246 | the definition of the stored netmask: dotted bytes for a `0x` mask that parses, the text as it is otherwise; `ClassCHexNetmask` gives an instance |
| `Interfaces.NetmaskAfter` | bsd_netgui/backend/interface_handler.py:228 | the definition of `\s+netmask\s+(\S+)` at the start of the rest of the line |
| `Interfaces.InetFrom` | bsd_netgui/backend/interface_handler.py:228 | the definition of the leftmost match of `inet\s+(\S+)\s+netmask\s+(\S+)` from a position |
| `Interfaces.PatchOf` | bsd_netgui/backend/interface_handler.py:222-252 | the definition of a detail line's effect after stripping; `InetLine` and `EtherLine` state it |
| `Interfaces.InetPatch` | bsd_netgui/backend/interface_handler.py:227-246 | the definition of an `inet ` line's effect: address and converted netmask when the search matches |
| `Interfaces.EtherPatch` | bsd_netgui/backend/interface_handler.py:249-252 | the definition of an `ether ` line's effect: the hardware address when the search matches |
| `Interfaces.Classify` | bsd_netgui/backend/interface_handler.py:196-222 | the definition of what a line does: a non-empty line not starting with a tab and holding `:` opens a block, another non-blank line fills the open record |
| `Interfaces.Aliases` | bsd_netgui/backend/interface_handler.py:198-199 | the definition of the list entries that are the open dict, which Python appends again when a header fails to match |
| `Interfaces.Step` | bsd_netgui/backend/interface_handler.py:196-252 | the definition of one line's effect on the scan; `ScanKind` performs it |
| `Interfaces.Steps` | bsd_netgui/backend/interface_handler.py:194-252 | the definition of the loop over the lines |
| `Interfaces.Finish` | bsd_netgui/backend/interface_handler.py:254-256 | the definition of the final append of the open record |
| `Interfaces.ParseLines` | bsd_netgui/backend/interface_handler.py:191-258 | the definition of the parser on the lines; `OneBlock`, `OneRecordPerHeader`, `RepeatedRecord` and `SkippedLines` state it |
| `Interfaces.ParseIfconfig` | bsd_netgui/backend/interface_handler.py:181-258 | the definition of `_parse_ifconfig_output` on the output split at `\n`; `ParseIfconfigOutput` computes it |
| `Interfaces.StartsBlock` | bsd_netgui/backend/interface_handler.py:196 | the definition of the test for a header line: non-empty, not starting with a tab, holding a `:` |
| `Interfaces.FlagsOf` | bsd_netgui/backend/interface_handler.py:202 | the flag list the header pattern captures is non-empty and holds no `>` |
| `Wifi.Wpa2HoldsWpa` | bsd_netgui/backend/wifi_handler.py:235-238 | a line holding `WPA2` also holds `WPA`, so only the order of the tests makes `WPA2` reachable |
| `Wifi.SecurityMonotone` | bsd_netgui/backend/wifi_handler.py:235-242 | more text around a line never lowers its security class |
| `Wifi.ScanEntry` | bsd_netgui/backend/wifi_handler.py:207-221 | a line yields a network exactly when it is not blank, does not start with `SSID` and has at least three fields, which give ssid, bssid, channel and signal |
| `Wifi.ParseScanOutput` | bsd_netgui/backend/wifi_handler.py:194-223 | the loop gives `ParseScan` of the output |
| `Wifi.ScanAppend` | bsd_netgui/backend/wifi_handler.py:206-221 | lines contribute independently and in order |
| `Wifi.ScanOrigin` | bsd_netgui/backend/wifi_handler.py:206-221 | every network is the entry of some line, and there are never more networks than lines |
| `Wifi.HeadingSkipped` | bsd_netgui/backend/wifi_handler.py:207 | the heading line yields nothing |
| `Wifi.WlanName` | bsd_netgui/backend/wifi_handler.py:42-45 | a name found is `wlan` followed by digits, taken from the head of the line |
| `Wifi.GetWifiInterfaces` | bsd_netgui/backend/wifi_handler.py:23-47 | no names when the command fails, otherwise the wlan names of the lines in order |
| `Wifi.WlanNameOf` | bsd_netgui/backend/wifi_handler.py:43-45 | a line `wlan<digits>:...` gives that name |
| `Wifi.OtherInterfaces` | bsd_netgui/backend/wifi_handler.py:42-45 | other interfaces and tab-indented lines give no name |
| `Wifi.WlanNamesAppend` | bsd_netgui/backend/wifi_handler.py:40-45 | names keep the order of their lines |
| `Wifi.GetCurrentConnection` | bsd_netgui/backend/wifi_handler.py:79-115 | none when the command fails, otherwise the connection the lines give |
| `Wifi.ConnectionLine` | bsd_netgui/backend/wifi_handler.py:103-113 | a new ssid replaces the one seen so far, and a status other than `associated` stops the search |
| `Wifi.ConnectionIff` | bsd_netgui/backend/wifi_handler.py:101-115 | connected exactly when no line reports another status and some line has an ssid; the ssid is then that of the last such line |
| `Wifi.SsidBeforeBssid` | bsd_netgui/backend/wifi_handler.py:103-105 | on a line `ssid <name> ... bssid <mac>` the ssid is the name |
| `Wifi.AssociatedKeeps` | bsd_netgui/backend/wifi_handler.py:108-113 | `status: associated` keeps the connection |
| `Wifi.DetermineSecurity` | bsd_netgui/backend/wifi_handler.py:225-242 | the definition of `_determine_security`: `WPA2` for a line holding `WPA2` or `RSN`, else `WPA`, `WEP` or `Open` by substring; `Wpa2HoldsWpa` and `SecurityMonotone` state its properties |
| `Wifi.ScanLines` | bsd_netgui/backend/wifi_handler.py:206-221 | the definition of the loop over the scan lines; `ScanAppend` and `ScanOrigin` state it |
| `Wifi.ParseScan` | bsd_netgui/backend/wifi_handler.py:194-223 | the definition of `_parse_scan_output` on the output split at `\n`; `ParseScanOutput` computes it |
| `Wifi.WlanNames` | bsd_netgui/backend/wifi_handler.py:39-47 | the definition of the wlan names of the lines, in order; `WlanNamesAppend` states it and `GetWifiInterfaces` computes it |
| `Wifi.SsidOf` | bsd_netgui/backend/wifi_handler.py:103-105 | the definition of the ssid a line carries, the leftmost match of `ssid\s+([^\s]+)`; `SsidBeforeBssid` gives an instance |
| `Wifi.StatusOf` | bsd_netgui/backend/wifi_handler.py:108-111 | the definition of the status word of a line holding `status:` |
| `Wifi.LastSome` | bsd_netgui/backend/wifi_handler.py:103-105 | the definition of the ssid that survives the loop: the last one seen; `LastSomeSpec` characterises it |
| `Wifi.Connection` | bsd_netgui/backend/wifi_handler.py:99-115 | the definition of the connection the loop reports; `ConnectionIff` characterises it and `GetCurrentConnection` computes it |
| `Backup.ToDict` | bsd_netgui/backend/backup_handler.py:31-41 | the record is written under exactly its seven keys |
| `Backup.MetadataRoundTrip` | bsd_netgui/backend/backup_handler.py:31-54 | `from_dict(to_dict(m))` is `m` |
| `Backup.MetadataDefaults` | bsd_netgui/backend/backup_handler.py:44-54 | an object with none of the keys reads as a fresh file-backup record |
| `Backup.FirstDatasetIff` | bsd_netgui/backend/backup_handler.py:126-137 | the dataset found is the one on the first qualifying line, and none is found only when no line qualifies |
| `Backup.ParentClauseUnused` | bsd_netgui/backend/backup_handler.py:133 | for a non-empty mount point the test holds exactly for `/etc` and `/`: the parent clause never fires |
| `Backup.FindEtcDataset` | bsd_netgui/backend/backup_handler.py:113-140 | the loop over the `zfs list` lines gives `EtcDataset`, none when the command fails |
| `Backup.SortedNamesSpec` | bsd_netgui/backend/backup_handler.py:473 | sorting a set of names gives each name once, in ascending order |
| `Backup.SortNames` | bsd_netgui/backend/backup_handler.py:501 | sorting by repeatedly taking the least name left gives that order |
| `Backup.Retired` | bsd_netgui/backend/backup_handler.py:504-505 | the names `[:-keep]` retires are a prefix of the sorted names |
| `Backup.NewestSurvive` | bsd_netgui/backend/backup_handler.py:476-477 | retention keeps `keep` names, or all when there are no more than `keep` or `keep` is 0, and every retired name is older than every kept one |
| `Backup.NewestKept` | bsd_netgui/backend/backup_handler.py:504-506 | the newest name outlives any retention that keeps at least one |
| `Backup.RetiredBefore` | bsd_netgui/backend/backup_handler.py:476-478 | every retired name is one of the names and older than each kept one |
| `Backup.ConfigFilesDistinct` | bsd_netgui/backend/backup_handler.py:68-74 | the configuration files have distinct base names |
| `Backup.FirstNamed` | bsd_netgui/backend/backup_handler.py:377-380 | a path found is a configuration file with the requested base name |
| `Backup.FirstNamedOf` | bsd_netgui/backend/backup_handler.py:377-380 | with distinct base names, each file's base name leads back to that file |
| `Backup.FindConfigPath` | bsd_netgui/backend/backup_handler.py:377-380 | the loop with `break` finds the first such file |
| `Backup.RestoreFilesFrame` | bsd_netgui/backend/backup_handler.py:372-391 | restoring files deletes no live file and writes only configuration files |
| `Backup.Restore` | bsd_netgui/backend/backup_handler.py:303-321 | only the live configuration changes, and only on success; a file backup writes only configuration files |
| `Backup.Delete` | bsd_netgui/backend/backup_handler.py:400-418 | the live files never change; an id that `pathlib` resolves to the backup directory itself (the empty id, `.`, `./`) removes every entry and reports true; any other file backup id succeeds exactly when it resolves to an existing backup folder, which is then the one thing removed |
| `Backup.DeleteNamed` | bsd_netgui/backend/backup_handler.py:441-452 | corrected: an id that is not a single entry name is refused; otherwise it succeeds exactly when the folder exists, and only that folder goes |
| `Backup.InsertDescending` | bsd_netgui/backend/backup_handler.py:297 | inserting a record keeps a listing newest first |
| `Backup.SortByTime` | bsd_netgui/backend/backup_handler.py:297 | the listing is a permutation of the records, newest first |
| `Backup.FirstMatchAsWritten` | bsd_netgui/backend/backup_handler.py:521-525 | a record is found exactly when one matches the id under the key as written, and it is the first that does |
| `Backup.FirstMatch` | bsd_netgui/backend/backup_handler.py:521-525 | corrected: the same, under the key with its `T` turned into `-` |
| `Backup.CollectRecords` | bsd_netgui/backend/backup_handler.py:281-294 | the reading loop gives the records found and whether every file could be read |
| `Backup.SortRecords` | bsd_netgui/backend/backup_handler.py:297 | the insertion loop gives `SortByTime` of the records |
| `Backup.CollectStops` | bsd_netgui/backend/backup_handler.py:279-299 | after an unreadable file nothing more is read |
| `Backup.CleanupFilesEffect` | bsd_netgui/backend/backup_handler.py:483-509 | file retention removes only folders, each older than every folder kept, and changes nothing when `keep` is 0 or there are no more than `keep` |
| `Backup.DeleteSnapshotEffect` | bsd_netgui/backend/backup_handler.py:420-439 | deleting a snapshot removes it and at most its metadata file |
| `Backup.CleanupSnapshotsEffect` | bsd_netgui/backend/backup_handler.py:454-481 | snapshot retention deletes only marked snapshots, each older than every marked one kept, and never touches the live files |
| `Backup.CopyFilesHold` | bsd_netgui/backend/backup_handler.py:243-252 | each existing configuration file is stored under its base name, and no later copy overwrites it |
| `Backup.RestoreCopied` | bsd_netgui/backend/backup_handler.py:372-391 | restoring the recorded names writes each captured file back to its path |
| `Backup.FileRoundTrip` | bsd_netgui/backend/backup_handler.py:213-268 | a file backup taken under a new, newest stamp (a single entry name, as the clock's stamps are) restores every configuration file that existed when it was taken, and only those, over whatever the live files became |
| `Backup.BackupHandler.constructor` | bsd_netgui/backend/backup_handler.py:77-94 | the handler holds the store, the configuration files and, when ZFS is available, the dataset holding `/etc` |
| `Backup.BackupHandler.CreateBackup` | bsd_netgui/backend/backup_handler.py:142-160 | a snapshot backup when ZFS and a dataset are available, otherwise a file backup |
| `Backup.BackupHandler.CreateZfsBackup` | bsd_netgui/backend/backup_handler.py:162-211 | the snapshot `<dataset>@netgui-<stamp>`, its metadata file and snapshot retention |
| `Backup.BackupHandler.CreateFileBackup` | bsd_netgui/backend/backup_handler.py:213-268 | the folder named by the stamp, the copies, `backup.json` and file retention |
| `Backup.BackupHandler.CopyConfigFiles` | bsd_netgui/backend/backup_handler.py:243-252 | the copying loop gives `CopyFiles` and `CopiedNames` and changes only the folder |
| `Backup.BackupHandler.CleanupFileBackups` | bsd_netgui/backend/backup_handler.py:483-509 | the store becomes `CleanupFiles` of the old one |
| `Backup.BackupHandler.CleanupZfsSnapshots` | bsd_netgui/backend/backup_handler.py:454-481 | the store becomes `CleanupSnapshots` of the old one |
| `Backup.BackupHandler.RestoreBackup` | bsd_netgui/backend/backup_handler.py:303-321 | dispatches on `@netgui-` as `Restore` does |
| `Backup.BackupHandler.RestoreZfsBackup` | bsd_netgui/backend/backup_handler.py:323-344 | the rollback of `RestoreSnapshot` |
| `Backup.BackupHandler.RestoreFileBackup` | bsd_netgui/backend/backup_handler.py:346-398 | the restore of `RestoreFolder` |
| `Backup.BackupHandler.DeleteBackup` | bsd_netgui/backend/backup_handler.py:400-418 | dispatches on `@netgui-` as `Delete` does |
| `Backup.BackupHandler.DeleteZfsBackup` | bsd_netgui/backend/backup_handler.py:420-439 | the store and result of `DeleteSnapshot` |
| `Backup.BackupHandler.DeleteFileBackup` | bsd_netgui/backend/backup_handler.py:441-452 | the store and result of `DeleteFolder` |
| `Backup.BackupHandler.ListBackups` | bsd_netgui/backend/backup_handler.py:270-301 | the records of the store's `Listing`, with the directory read in the given order |
| `Backup.BackupHandler.GetBackupInfo` | bsd_netgui/backend/backup_handler.py:511-525 | the first record of that listing that the id matches, with the key as written (see Findings) |
| `Backup.TextField` | bsd_netgui/backend/backup_handler.py:47 | the definition of `data.get(key, default)` on a text field: the stored string, or the default when the key is missing |
| `Backup.FromDict` | bsd_netgui/backend/backup_handler.py:44-54 | the definition of `from_dict`: each field read from its key, with the defaults `''`, `'file'`, `[]` and `None`; `MetadataRoundTrip` and `MetadataDefaults` state its properties |
| `Backup.HoldsEtc` | bsd_netgui/backend/backup_handler.py:133 | the definition of the mount point test; `ParentClauseUnused` shows what it accepts |
| `Backup.DatasetLine` | bsd_netgui/backend/backup_handler.py:127-135 | the definition of one line's contribution: the first field, when the line has two fields and the second passes the mount point test |
| `Backup.FirstDataset` | bsd_netgui/backend/backup_handler.py:126-137 | the definition of the search over the lines; `FirstDatasetIff` characterises it |
| `Backup.EtcDataset` | bsd_netgui/backend/backup_handler.py:113-140 | the definition of `_get_etc_dataset`: none when `zfs list` fails, otherwise the search over the lines of its stripped output; `FindEtcDataset` computes it |
| `Backup.SortedNames` | bsd_netgui/backend/backup_handler.py:473 | the definition of `sorted()` on distinct names; `SortedNamesSpec` states it ascending and complete |
| `Backup.MetaName` | bsd_netgui/backend/backup_handler.py:198 | the definition of a snapshot's metadata file name, `snapshot-<stamp>.json` |
| `Backup.CopyFiles` | bsd_netgui/backend/backup_handler.py:243-251 | the definition of the copying loop's effect on the folder; `CopyFilesHold` states what it holds |
| `Backup.CopiedNames` | bsd_netgui/backend/backup_handler.py:243-252 | the definition of `metadata.files`: the base names of the files that exist, in order |
| `Backup.CreateFile` | bsd_netgui/backend/backup_handler.py:213-268 | the definition of `_create_file_backup`: failure when the stamp names a plain file; otherwise the folder gets the copies and `backup.json`, then file retention keeps 20; `FileRoundTrip` is its round trip |
| `Backup.FolderNames` | bsd_netgui/backend/backup_handler.py:496-498 | the definition of the entries of the backup directory that are directories |
| `Backup.CleanupFiles` | bsd_netgui/backend/backup_handler.py:483-509 | the definition of `_cleanup_file_backups(keep)`; `CleanupFilesEffect` states what it removes |
| `Backup.StampOf` | bsd_netgui/backend/backup_handler.py:429 | the definition of `split('@netgui-')[1]`; `BackupLemmas.StampOfName` reads back the stamp a name was made with |
| `Backup.DeleteSnapshot` | bsd_netgui/backend/backup_handler.py:420-439 | the definition of `_delete_zfs_backup`: failure when the snapshot is missing; otherwise it goes, with its metadata file, and unlinking a folder fails; `DeleteSnapshotEffect` states its frame |
| `Backup.DeleteSnapshots` | bsd_netgui/backend/backup_handler.py:477-478 | the definition of the loop deleting each retired snapshot in turn |
| `Backup.NetguiSnapshots` | bsd_netgui/backend/backup_handler.py:467-470 | the definition of the snapshots listed whose name holds `@netgui-` |
| `Backup.CleanupSnapshots` | bsd_netgui/backend/backup_handler.py:454-481 | the definition of `_cleanup_zfs_snapshots(keep)`; `CleanupSnapshotsEffect` states what it deletes |
| `Backup.CreateZfs` | bsd_netgui/backend/backup_handler.py:162-211 | the definition of `_create_zfs_backup`: failure when the snapshot exists, and failure with the snapshot kept when its metadata name is a folder; otherwise the snapshot, its metadata file and retention of 10; `BackupLemmas.SnapshotRoundTrip` is its round trip |
| `Backup.Create` | bsd_netgui/backend/backup_handler.py:142-160 | the definition of `create_backup`: a snapshot when ZFS is available and a dataset was found, otherwise a file backup |
| `Backup.RestoreFiles` | bsd_netgui/backend/backup_handler.py:372-392 | the definition of the restoring loop; `RestoreFilesFrame` and `RestoreCopied` state what it writes |
| `Backup.RestoreFolder` | bsd_netgui/backend/backup_handler.py:346-398 | the definition of `_restore_file_backup`: failure when `backup_dir / id` is no directory or its `backup.json` is missing or unreadable; otherwise the recorded files are restored; `NormalisedIds` shows a trailing `/` or leading `./` restores the same folder |
| `Backup.RestoreSnapshot` | bsd_netgui/backend/backup_handler.py:323-344 | the definition of `_restore_zfs_backup`: the live files become the snapshot's, or failure when it is missing |
| `Backup.NamesStore` | bsd_netgui/backend/backup_handler.py:444 | the definition of the ids that `backup_dir / id` resolves to the backup directory itself; `TargetOf` states they are made of `/` and `.` only |
| `Backup.DeleteFolder` | bsd_netgui/backend/backup_handler.py:441-452 | the definition of `_delete_file_backup` as written, on the path `TargetOf` resolves; `Delete` states its outcome |
| `Backup.EntryName` | bsd_netgui/backend/backup_handler.py:444 | the definition of an id that names one entry of the backup directory, which the corrected delete requires |
| `Backup.Parts` | bsd_netgui/backend/backup_handler.py:357 | the parts `pathlib` keeps of a relative path are never empty or `.` and are parts of the input |
| `Backup.TargetOf` | bsd_netgui/backend/backup_handler.py:357 | `backup_dir / id`: a single entry name resolves to itself; a resolved entry is always a single entry name; the backup directory itself is reached only by ids made of `/` and `.` |
| `Backup.DotsOnly` | bsd_netgui/backend/backup_handler.py:357 | an id whose parts are all empty or `.` holds only `/` and `.` |
| `Backup.FolderAt` | bsd_netgui/backend/backup_handler.py:357-366 | for a single entry name, the directory is that backup folder when it exists, and none otherwise |
| `Backup.Load` | bsd_netgui/backend/backup_handler.py:287-289 | the definition of reading a metadata file: its record, or an error for a file that is not JSON |
| `Backup.ItemOf` | bsd_netgui/backend/backup_handler.py:283-294 | the definition of one entry's contribution to the listing: a folder's `backup.json`, a `snapshot-*.json` file, or nothing |
| `Backup.Collect` | bsd_netgui/backend/backup_handler.py:281-294 | the definition of the reading loop; `BackupLemmas.CollectSpec` and `CollectStops` state it |
| `Backup.Descending` | bsd_netgui/backend/backup_handler.py:296-297 | the definition of newest first |
| `Backup.Listing` | bsd_netgui/backend/backup_handler.py:270-301 | the definition of `list_backups`; `BackupLemmas.ListingSpec` and `BackupLemmas.ListedRecord` state it |
| `Backup.Key` | bsd_netgui/backend/backup_handler.py:523 | the definition of the key as written; `BackupLemmas.KeyOfIso` gives its value on an ISO timestamp |
| `Backup.MatchesAsWritten` | bsd_netgui/backend/backup_handler.py:523 | the definition of the test as written; `BackupLemmas.FileBackupMissed` shows what it misses |
| `Backup.StampKey` | bsd_netgui/backend/backup_handler.py:523 | corrected: the definition of the key with its `T` made `-`; `BackupLemmas.StampKeyOfIso` gives its value |
| `Backup.Matches` | bsd_netgui/backend/backup_handler.py:523 | corrected: the definition of the test under that key; `BackupLemmas.FileBackupFound` shows it finds the record |
| `Backup.Basename` | bsd_netgui/backend/backup_handler.py:250-252 | the definition of `Path(p).name`; `BasenameOf` states it gives back the name joined to a directory |
| `BackupLemmas.StampOfName` | bsd_netgui/backend/backup_handler.py:429 | the stamp read back from a snapshot name is the one it was created with |
| `BackupLemmas.SnapshotRoundTrip` | bsd_netgui/backend/backup_handler.py:162-211 | a snapshot backup taken under a new, newest name restores the live files as they were when it was taken |
| `BackupLemmas.DeleteSnapshotBackup` | bsd_netgui/backend/backup_handler.py:420-439 | deleting a snapshot backup destroys the snapshot and its metadata file, and nothing else |
| `BackupLemmas.CollectSpec` | bsd_netgui/backend/backup_handler.py:281-294 | reading gets through exactly when no file is unreadable, and then finds exactly the records the names hold |
| `BackupLemmas.ListingSpec` | bsd_netgui/backend/backup_handler.py:270-301 | with every file readable, `list_backups` is newest first and holds each backup's record and nothing else, whatever order the directory is read in |
| `BackupLemmas.CollectFound` | bsd_netgui/backend/backup_handler.py:281-294 | on either path, every record read is the record of one of the names read |
| `BackupLemmas.ListedRecord` | bsd_netgui/backend/backup_handler.py:270-301 | every record `list_backups` returns, sorted or not, is the record of an entry of the backup directory |
| `BackupLemmas.KeyOfIso` | bsd_netgui/backend/backup_handler.py:523 | the key of an ISO timestamp is the date and time digits with the `T` between them |
| `BackupLemmas.StampKeyOfIso` | bsd_netgui/backend/backup_handler.py:523 | with the `T` made a `-`, the key of an ISO timestamp is the folder stamp of the same clock reading |
| `BackupLemmas.FileBackupMissed` | bsd_netgui/backend/backup_handler.py:523 | as written, a record stamped by an ISO timestamp never matches an id without a `T` that is not its snapshot name |
| `BackupLemmas.FileBackupMissedInListing` | bsd_netgui/backend/backup_handler.py:511-525 | as written, when every record has an ISO timestamp, `get_backup_info` finds nothing by a name made from the clock, in whatever order the directory is read, unless it is some record's snapshot name |
| `BackupLemmas.FileBackupFound` | bsd_netgui/backend/backup_handler.py:523 | with the corrected key, a record is matched by the name made from the clock reading it was stamped with |
| `BackupLemmas.FileBackupFoundInListing` | bsd_netgui/backend/backup_handler.py:511-525 | with the corrected key and every file readable, the lookup by that name finds a record |
| `BackupLemmas.DeleteStoreId` | bsd_netgui/backend/backup_handler.py:441-452 | as written, deleting an id that names the backup directory itself (the empty id, `.`, `./`) reports success and removes every entry of the backup directory; the corrected delete refuses it |
| `BackupLemmas.NormalisedIds` | bsd_netgui/backend/backup_handler.py:357 | an id with a trailing `/` or a leading `./` resolves to the named entry, and restores and deletes exactly as the bare name does |
| `BackupLemmas.DeleteNamedOnly` | bsd_netgui/backend/backup_handler.py:441-452 | corrected: every entry other than the id survives the delete |
| `BackupLemmas.SnapshotStampFound` | bsd_netgui/backend/backup_handler.py:523 | so is a snapshot backup looked up by a name ending in its stamp |
| `Profiles.ToDict` | bsd_netgui/backend/profile_manager.py:26-41 | a profile's record has exactly the keys `name`, `type`, `interface`, `autoconnect` and `config` |
| `Profiles.ProfileRoundTrip` | bsd_netgui/backend/profile_manager.py:26-58 | reading back the record of a profile gives the same profile |
| `Profiles.DictRoundTrip` | bsd_netgui/backend/profile_manager.py:26-58 | a record with exactly those keys, each of the right kind, is rebuilt unchanged from the profile it reads as |
| `Profiles.ProfileDefaults` | bsd_netgui/backend/profile_manager.py:42-58 | a record with none of the keys reads as `Unnamed Profile`, `ethernet` on `em0`, autoconnecting, with no settings |
| `Profiles.KeepFileChars` | bsd_netgui/backend/profile_manager.py:202 | dropping the characters outside letters, digits, `_` and `-` never lengthens a name |
| `Profiles.SanitizeByChar` | bsd_netgui/backend/profile_manager.py:201-202 | lower-casing, replacing ` ` and `/` by `_` and filtering agree with one pass that normalises and filters each character |
| `Profiles.SanitizeOneChars` | bsd_netgui/backend/profile_manager.py:201-202 | every character of a sanitized name is a letter, digit, `_` or `-` that normalisation leaves alone |
| `Profiles.SanitizeOneFixed` | bsd_netgui/backend/profile_manager.py:201-202 | a name made only of such characters passes through unchanged |
| `Profiles.SanitizeSpec` | bsd_netgui/backend/profile_manager.py:201-202 | a file name has no upper-case letter and no character outside letters, digits, `_` and `-`, and sanitizing it again changes nothing |
| `Profiles.CreateFromTemplate` | bsd_netgui/backend/profile_manager.py:269-291 | `None` exactly for an unknown template; otherwise the template's profile, renamed exactly when a non-empty name is given |
| `Profiles.TemplatesComplete` | bsd_netgui/backend/profile_manager.py:74-128 | each of the five templates is a well-formed profile record that reads back unchanged |
| `Profiles.LoadRc` | bsd_netgui/backend/profile_manager.py:309-313 | rc.conf as loaded (parsed from its newline-translated text), missing or not, keeps its key index consistent with its lines |
| `Profiles.SaveRc` | bsd_netgui/backend/profile_manager.py:360-363 | rc.conf is written exactly when it validates, as the serialised document; a refused save changes no file; wpa_supplicant.conf is never touched |
| `Profiles.WithGateway` | bsd_netgui/backend/profile_manager.py:355-358 | setting the gateway keeps the document's key index consistent |
| `Profiles.EthernetDoc` | bsd_netgui/backend/profile_manager.py:343-358 | the ethernet rc.conf updates keep the key index consistent |
| `Profiles.WifiDoc` | bsd_netgui/backend/profile_manager.py:414-430 | the wifi rc.conf updates keep the key index consistent |
| `Profiles.Apply` | bsd_netgui/backend/profile_manager.py:293-325 | an unknown profile type changes nothing and fails; a failed apply leaves rc.conf and its backup as they were; only a wifi profile touches wpa_supplicant.conf |
| `Profiles.FirstNamed` | bsd_netgui/backend/profile_manager.py:255-258 | the profile found is in the list and has the name; none is found exactly when no profile has it |
| `Profiles.ProfileManager.constructor` | bsd_netgui/backend/profile_manager.py:130-155 | the manager starts with no profiles loaded |
| `Profiles.ProfileManager.LoadProfiles` | bsd_netgui/backend/profile_manager.py:156-187 | the loaded list is the profiles of the listed `.json` files that read as JSON objects, in listing order |
| `Profiles.ProfileManager.SaveProfile` | bsd_netgui/backend/profile_manager.py:189-213 | the profile's record is stored under its sanitized file name; nothing else changes |
| `Profiles.ProfileManager.DeleteProfile` | bsd_netgui/backend/profile_manager.py:215-243 | an existing file is removed along with every loaded profile of that name, reporting true; otherwise nothing changes and it reports false |
| `Profiles.ProfileManager.GetProfile` | bsd_netgui/backend/profile_manager.py:245-258 | the loop returns the first loaded profile with the name, or none |
| `Profiles.ProfileManager.ListProfiles` | bsd_netgui/backend/profile_manager.py:260-267 | the loaded profiles |
| `Profiles.ProfileManager.ApplyProfile` | bsd_netgui/backend/profile_manager.py:293-325 | the files and the result are those of `Profiles.Apply` |
| `Profiles.ProfileManager.ApplyEthernetProfile` | bsd_netgui/backend/profile_manager.py:327-366 | the files and the result are those of the ethernet path on the loaded document |
| `Profiles.ProfileManager.ApplyWifiProfile` | bsd_netgui/backend/profile_manager.py:368-438 | the files and the result are those of the wifi path: wpa_supplicant.conf first, then rc.conf |
| `Profiles.ProfileManager.StoreWifiNetwork` | bsd_netgui/backend/profile_manager.py:384-412 | the add succeeds exactly when the security setting is text; then wpa_supplicant.conf becomes the generated text of the updated network list, its old text kept as backup when asked, and otherwise nothing is written |
| `Profiles.ProfileManager.SaveRcFile` | bsd_netgui/backend/profile_manager.py:360-363 | the files and result are those of a validated rc.conf save |
| `Profiles.WriteWifiNetwork` | bsd_netgui/backend/profile_manager.py:384-412 | when the network can be added, the new text is generated from the loaded file with the ssid's network replaced and the backup is the old text when asked and present; otherwise file and backup stay as they were |
| `Profiles.SaveWpa` | bsd_netgui/backend/profile_manager.py:409-412 | saving writes the generated configuration and keeps the old text as backup when asked |
| `Profiles.LoadWpaFile` | bsd_netgui/backend/profile_manager.py:384-388 | a fresh handler holds the file parsed from its newline-translated text, or an empty configuration when there is none |
| `Profiles.ReplaceNetwork` | bsd_netgui/backend/profile_manager.py:401-407 | the networks with the ssid are removed and one new network with the profile's settings is added; a security setting that is not text fails the add, after the removal |
| `Profiles.SetEthernet` | bsd_netgui/backend/profile_manager.py:343-358 | succeeds exactly when DHCP is on or both an address and a netmask are given, and then the document is the ethernet update |
| `Profiles.SetWifi` | bsd_netgui/backend/profile_manager.py:414-430 | succeeds exactly when DHCP is on or both an address and a netmask are given, and then the document is the wifi update |
| `Profiles.SetGateway` | bsd_netgui/backend/profile_manager.py:355-358 | the document gains the gateway when it is given and valid, and is otherwise unchanged |
| `Profiles.FromDict` | bsd_netgui/backend/profile_manager.py:42-58 | the definition of `from_dict`: each field from its key or its default; `ProfileRoundTrip`, `DictRoundTrip` and `ProfileDefaults` characterise it (see Left out) |
| `Profiles.ProfileDict` | bsd_netgui/backend/profile_manager.py:26-41 | the definition of a record with the five fields of the kinds `to_dict` writes; `DictRoundTrip` and `TemplatesComplete` use it |
| `Profiles.Sanitize` | bsd_netgui/backend/profile_manager.py:201-202 | the definition of the file name rule of `save_profile` and `delete_profile`; `SanitizeSpec` states it |
| `Profiles.FileName` | bsd_netgui/backend/profile_manager.py:203 | the definition of the profile's file, the sanitized name plus `.json`; `ProfileLemmas.FileNameIsJson` states it |
| `Profiles.NormChar` | bsd_netgui/backend/profile_manager.py:201 | the definition of what one character becomes before the filter: ` ` and `/` to `_`, else lower case |
| `Profiles.SanitizeOne` | bsd_netgui/backend/profile_manager.py:201-202 | the single-pass reference definition; `SanitizeByChar` proves it equal to `Sanitize` |
| `Profiles.Template` | bsd_netgui/backend/profile_manager.py:74-128 | the definition of `TEMPLATES`: the five named records, `None` for any other name; `TemplatesComplete` states each is well formed |
| `Profiles.Truth` | bsd_netgui/backend/profile_manager.py:344 | the definition of Python truth of a JSON value, as the `if` tests use it |
| `Profiles.TextOf` | bsd_netgui/backend/profile_manager.py:347-348 | the definition of `config.get(key)` read as text (see Left out) |
| `Profiles.DhcpOn` | bsd_netgui/backend/profile_manager.py:344 | the definition of `config.get('dhcp', True)` tested for truth |
| `Profiles.SecurityOf` | bsd_netgui/backend/profile_manager.py:397 | the definition of `config.get('security', 'WPA2-PSK')` (see Left out) |
| `Profiles.SecurityIsText` | bsd_netgui/backend/profile_manager.py:397-407 | the definition of a security setting `add_network` accepts; `ProfileLemmas.SecurityNotText` states the failure otherwise |
| `Profiles.PriorityOf` | bsd_netgui/backend/profile_manager.py:398 | the definition of `config.get('priority', 5)` (see Left out) |
| `Profiles.ScanOf` | bsd_netgui/backend/profile_manager.py:399 | the definition of `config.get('scan_ssid', False)` tested for truth |
| `Profiles.LoadWpa` | bsd_netgui/backend/profile_manager.py:385-388 | the definition of a fresh wpa_supplicant.conf handler after `load`, from the newline-translated text; `LoadWpaFile` computes it |
| `Profiles.ApplyEthernet` | bsd_netgui/backend/profile_manager.py:327-366 | the definition of `_apply_ethernet_profile`; `ProfileLemmas.EthernetDhcp`, `EthernetStatic`, `StaticRefusalIgnored` and `StaticNeedsAddress` state it |
| `Profiles.WifiNetworks` | bsd_netgui/backend/profile_manager.py:401-407 | the definition of the networks after the remove and the add; `ProfileLemmas.WifiOneNetwork` states it |
| `Profiles.WifiConf` | bsd_netgui/backend/profile_manager.py:385-407 | the definition of wpa_supplicant.conf after loading, removing and adding, before it is written |
| `Profiles.WpaStatic` | bsd_netgui/backend/profile_manager.py:425 | the definition of the static `ifconfig_` value of a wifi interface |
| `Profiles.WifiWrite` | bsd_netgui/backend/profile_manager.py:409-412 | the definition of the disk after wpa_supplicant.conf is saved, the old text kept as backup when asked |
| `Profiles.ApplyWifi` | bsd_netgui/backend/profile_manager.py:368-438 | the definition of `_apply_wifi_profile`; `ProfileLemmas.SecurityNotText`, `StaticNeedsAddress`, `WifiRcValue` and `WifiOneNetwork` state it |
| `Profiles.EthernetKind` | bsd_netgui/backend/profile_manager.py:316 | the definition of the types routed to the ethernet path, `ethernet` and `tethering` |
| `Profiles.LoadedFrom` | bsd_netgui/backend/profile_manager.py:171-180 | the definition of the profiles `load_profiles` collects in listing order; `ProfileLemmas.LoadedFromSpec` characterises it |
| `Profiles.WithoutName` | bsd_netgui/backend/profile_manager.py:236 | the definition of the comprehension; `ProfileLemmas.WithoutNameSpec` characterises it |
| `Profiles.Deleted` | bsd_netgui/backend/profile_manager.py:215-243 | the definition of `delete_profile` on the store and the loaded list; `ProfileLemmas.SaveThenDelete` and `DeleteMissing` state it |
| `ProfileLemmas.RouterKeyApart` | bsd_netgui/backend/profile_manager.py:344-358 | the interface key never coincides with `defaultrouter` |
| `ProfileLemmas.EthernetDhcp` | bsd_netgui/backend/profile_manager.py:344-345 | a DHCP ethernet or tethering profile sets `ifconfig_<iface>` to `DHCP` and saves rc.conf |
| `ProfileLemmas.EthernetStatic` | bsd_netgui/backend/profile_manager.py:346-358 | a valid static setting writes `inet <ip> netmask <netmask>`; the gateway is set when given and valid, and otherwise left as it was |
| `ProfileLemmas.StaticRefusalIgnored` | bsd_netgui/backend/profile_manager.py:353-363 | an address or netmask the handler refuses leaves the interface setting unchanged, yet the gateway is still set and rc.conf still saved |
| `ProfileLemmas.SecurityNotText` | bsd_netgui/backend/profile_manager.py:397-407 | a wifi profile whose security setting is not text fails and changes no file |
| `ProfileLemmas.StaticNeedsAddress` | bsd_netgui/backend/profile_manager.py:346-351 | a static profile without an address or netmask fails: an ethernet one changes nothing, while a wifi one has already rewritten wpa_supplicant.conf |
| `ProfileLemmas.WifiRcValue` | bsd_netgui/backend/profile_manager.py:414-430 | the wifi rc.conf update fails exactly when a static setting lacks an address or netmask; otherwise the interface reads `WPA DHCP` or `WPA inet <ip> netmask <netmask>` |
| `ProfileLemmas.WifiOneNetwork` | bsd_netgui/backend/profile_manager.py:401-407 | afterwards exactly one network has the ssid, the new one, last, with the profile's priority; every other network is kept |
| `ProfileLemmas.LoadedFromSpec` | bsd_netgui/backend/profile_manager.py:171-177 | a profile is loaded exactly when some listed `.json` file reads as a JSON object describing it |
| `ProfileLemmas.FileNameIsJson` | bsd_netgui/backend/profile_manager.py:203 | every profile file name ends in `.json` |
| `ProfileLemmas.SavedIsLoaded` | bsd_netgui/backend/profile_manager.py:189-213 | a saved profile is loaded back unchanged once its file is listed |
| `ProfileLemmas.WithoutNameSpec` | bsd_netgui/backend/profile_manager.py:236 | deleting keeps exactly the loaded profiles with another name |
| `ProfileLemmas.SaveThenDelete` | bsd_netgui/backend/profile_manager.py:215-243 | deleting a just-saved profile removes its file, reports true and leaves no loaded profile of that name |
| `ProfileLemmas.DeleteMissing` | bsd_netgui/backend/profile_manager.py:231-240 | a name without a file is refused and nothing changes |

## Left out

- Reading and writing real files is not modelled. Each file is an `Option<string>` or an entry of an abstract disk map. The `.tmp` write, `shutil.move`, `chmod 0o600`, `copy2` metadata and `rmtree` are not modelled, and a write never fails. Atomicity is not claimed: the `except` blocks of both `write` and `save` name `temp_path`, which is unbound when the `.bak` copy fails.
- Logging is not modelled, and neither are the `except Exception` paths; the operations the model covers do not raise on the inputs it accepts.
- `execute_command`, `check_root_privileges` and `setup_logging` run processes or touch the environment. Command results are given as a success flag and stdout.
- The zfs probes (`_check_zfs_available`, `zfs list`, `zfs snapshot`, `zfs rollback`, `zfs destroy`) are not run. Whether ZFS is available is a constructor parameter, and the result of `zfs list` is an input. The other commands act on the abstract store: `zfs snapshot` succeeds exactly when the name is new, and `zfs rollback` and `zfs destroy` exactly when the snapshot exists. Failures for other reasons, such as permissions or a full pool, are not modelled.
- `Backup.BackupHandler.RestoreZfsBackup`: `zfs rollback` runs without `-r`, so ZFS refuses any snapshot that is not the dataset's most recent, while the tool keeps up to ten. The store records no creation order, so the model rolls back to any snapshot present. `BackupLemmas.SnapshotRoundTrip` speaks only of the newest snapshot.
- `Backup.RestoreSnapshot`: the function behind `RestoreZfsBackup`, with the same gap.
- `Backup.Delete`: an absolute id, or one with a `..` part, can reach outside the backup directory (`rmtree` of its parent, or of any directory) or back into it. The store holds only the backup directory and not its own path, so the model reads such an id as missing. Whether the backup directory exists is not tracked either: an id naming it reports success even where ZFS is available and no backup ever created the directory, where Python reports false. `Backup.DeleteNamed` is the corrected delete (see Findings).
- `Backup.RestoreFolder`: an absolute id, or one with a `..` part, reads as missing: the store holds only the backup directory and not its own path, so such an id is not followed even where it leads back to a backup folder. An id naming the backup directory itself reads its top-level plain files as the folder; a directory there named like a configuration file, which makes Python's copy raise part-way, is skipped instead.
- `Backup.Restore`: the same gap, for the file backup branch.
- `Backup.BackupHandler.RestoreFileBackup`: the same gap, as it follows `Backup.RestoreFolder`.
- `Backup.BackupHandler.RestoreBackup`: the same gap, as it follows `Backup.Restore`.
- `Backup.FromDict`: a metadata field of the wrong JSON kind reads as its default, where Python keeps the value. A `null` timestamp makes Python's sort raise, so `list_backups` returns the records unsorted; a `files` value that is not a list makes a restore fail. The model sorts and restores instead.
- `datetime.now`, `os.getenv('USER')` and `socket.gethostname` are parameters.
- `get_routing_table`, `delete_route` and `add_default_gateway` only run commands. Of the routing handler, the `netstat` parser, `_netmask_to_prefix` and the argument list of `add_route` are modelled.
- `list_interfaces`, `enable_interface`, `disable_interface`, `configure_dhcp` and `configure_static_ip` are command wrappers and are not modelled. `get_interface_details` is modelled on the command's result.
- `scan_networks`, `connect_network`, `disconnect_network` and `_update_wpa_supplicant_conf` only run commands or write files. They are not modelled. The scan parser they feed is.
- `export_profile`, `import_profile`, `get_current_profile`, `get_available_templates` and `get_template_info` are not modelled. They copy JSON between files or run commands, outside the profile list and apply logic.
- The creation of the profiles directory is not modelled. The order `glob('*.json')` lists files in is a parameter, and so is the order `iterdir()` reads the backup directory in.
- Profile JSON (`Profiles.Json`) is a datatype of null, booleans, integers, strings and objects. Backup metadata values (`Backup.Value`) are strings, lists of strings or null. Floats, and arrays in profiles, are not modelled.
- `Profiles.PriorityOf`: a `priority` that is not a JSON integer reads as 5, where Python would pass the value through unchanged.
- `Profiles.FromDict`: a field of the wrong JSON kind reads as its default, where Python would keep the value.
- `Profiles.TextOf`: a setting that is not a JSON string reads as missing, while Python tests only truthiness. A non-empty non-string `ip`, `netmask`, `gateway` or `ssid` passes Python's checks. An integer address is accepted by `ipaddress`, and `str()` of the value is then written, or a non-string netmask fails in `validate_netmask`. A `password` that is not a string reads as an open network, where Python fails when it writes the network block.
- `Profiles.SecurityOf`: read only when the security setting is missing or text (`Profiles.SecurityIsText`). Any other setting, `null` included, makes `add_network` fail, which the model does follow.
- `Profiles.SetEthernet`: follows the reading of `Profiles.TextOf`, so a non-string `ip` or `netmask` counts as missing.
- `Profiles.SetWifi`: the same, so a non-string `ip` or `netmask` counts as missing rather than being written with `str()`.
- `ProfileLemmas.StaticNeedsAddress`: the same reading of `Profiles.TextOf`: "without an address" includes a non-string one.
- `ProfileLemmas.WifiRcValue`: the same reading of `Profiles.TextOf`.
- `__repr__` methods only build debugging text and are not modelled.
- `WpaConf.SetRepr`: Python prints the set of duplicated ssids in an order that follows string hashes, which vary between runs, and `repr` escapes quotes and backslashes. The model lists each ssid once, in first-occurrence order, in plain single quotes.
- `WpaConf.ValidateExact`: the text of the duplicate-ssid message is only as exact as `WpaConf.SetRepr`. Whether that message appears, the other messages and the outcome do not depend on it.
- `WpaConf.WPAConfHandler.Validate`: the same, as it returns the messages of `WpaConf.ValidateConf`.
- `isdigit`, `isalnum`, `isspace`, `lower` and `upper` are modelled on ASCII only. Python also accepts other Unicode digits, letters and spaces.
- `Text.ParseInt` models Python `int()` on ASCII digits with an optional sign and surrounding whitespace. It does not model digit-group underscores.
- `ipaddress.ip_address` is modelled as the strict dotted-quad grammar, which refuses leading zeros. Which inputs it accepts varies between Python versions.
- `WpaRoundTrip.GenerateThenParse` requires the configuration to be writable: texts on one line, trimmed comments, and unknown keys that are identifiers. It does not claim that the values of `other_params` or `global_params` come back, because the parser strips a pair of quotes from a network's values and trims every value, while generation writes them as they are. It is stated on the generated text; a saved file is read back through `Text.TranslateNewlines`, which leaves it unchanged exactly when no text in it holds a carriage return (`Text.TranslateNewlinesIdentity`).
- `WpaConf.WPAConfHandler.Save` does not call `validate`, as in the source. No property ties a saved file to a valid configuration.

## Findings

| source | as written | input that shows it | evidently intended | confidence | as-written member | corrected member |
|---|---|---|---|---|---|---|
| bsd_netgui/backend/backup_handler.py:523 | `get_backup_info` compares the id with the metadata timestamp stripped of `:` and `-` and cut to 15 characters, which keeps the ISO `T` (`20250101T120000`) | a file backup created at 2025-01-01 12:00:00 has id `20250101-120000`; `get_backup_info("20250101-120000")` does not find it | a backup is found by the id it was created under | not executed | `BackupLemmas.FileBackupMissedInListing` | `BackupLemmas.FileBackupFoundInListing` |
| bsd_netgui/backend/backup_handler.py:444-447 | `_delete_file_backup` removes `backup_dir / timestamp` with `rmtree` whenever that path exists, without checking that the id names one entry | `delete_backup("")` (or `"."`) with backups `20250101-120000` and `20250102-120000` present: the path is the backup directory itself, both backups are removed and the call reports true | only the folder of the named backup is removed, and an id that names no single entry is refused | not executed | `BackupLemmas.DeleteStoreId` | `Backup.DeleteNamed` |
