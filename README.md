# Setzer editor core, modelled in Dafny

Setzer is a LaTeX editor for the GNOME desktop. This project models four pieces of its
sequential logic that do not depend on GTK, and proves what they promise.

- **Document-structure sidebar** (`structure.dfy`). The outline is built by
  `StructureSection.update_items` in three stages:
  - it splices the blocks of included documents into the root document's block list;
  - it keeps the sectioning blocks in a dictionary keyed by starting line, with Python dict
    semantics;
  - it nests them into a forest through an eight-slot predecessor table indexed by level
    (`part` = 0 … `file` = 7).

  `draw_nodes` walks that forest in pre-order and paints the rows inside the visible window.
  A click picks a row of `nodes_in_line`, clamped to the list.
- **BibTeX key indexer** (`bibtex.dfy`). `ParserBibTeX` keeps a mirror of the buffer text,
  splices every insertion and deletion into it, and then rescans it for `@type{key`. The
  keys it finds replace the document's `bibitems` symbol set.
- **Text-editing helpers of `Content`** (`content.dfy`):
  - tab expansion and the indentation width;
  - substituting the selection for a single `•` placeholder;
  - re-indenting inserted text to the cursor line's leading whitespace;
  - the comment/uncomment toggle over the buffer's lines;
  - the `\usepackage` text and the place where it is inserted;
  - the truncation of the synctex word and the selection of candidate matches.
- **Autocomplete controller** (`autocomplete.dfy`):
  - detecting the `\begin{…}`/`\end{…}` context by matching the regular expression on the
    cursor line with the `%•%` marker inserted at the cursor;
  - deciding whether to start the default mode;
  - switching modes;
  - dispatching keys while the popup is visible;
  - filling the popup list.

Shared modules:
- `wrappers.dfy`: `Option`.
- `strings.dfy`: the parts of Python's `str` the core uses. These are clamped slicing,
  `isspace`, `strip`/`lstrip`, `split`, `join`, `splitlines`, `count`, the index of one
  character and a single replacement. The substring `find` of the synctex search is in
  `content.dfy`.
- `sequences.dfy`: two small sequence lemmas.
- `numbers.dfy`: Python's `max` and `min` of two integers.

State that the source changes in place is modelled as follows:
- `StructureSection` is a class with the fields `nodes`, `nodes_in_line` and `height`.
- `ParserBibTeX` is a class with the mirror `text`. Its `Document` holds `symbols`.
- `SourceBuffer` is a class holding the buffer's lines.
- `AutocompleteController` is a class with the fields `mode`, `items`, the popup `rows` and
  the `selected` row.
- The predecessor table is an `array<int>` of eight slots, with `-1` for `None`.
- Calls into collaborators (modes, the popup view) are appended to an `effects` log, so the
  order of the calls is part of each method's contract.

Everything that comes from code outside the core is a parameter of the model:
- the document's blocks and includes;
- the autocomplete provider's items and the mode's answers;
- the regex matches and the similarity ratio of the synctex search;
- the end of a line for a buffer offset.

## Model

| member | source | states |
|---|---|---|
| `Structure.LevelOf` | setzer/workspace/sidebar/document_structure_page/structure.py:35 | the eight outline kinds map to levels 0 to 7; any other kind has no level |
| `Structure.WithOwnerAll` | setzer/workspace/sidebar/document_structure_page/structure.py:71-72 | every block of a child document gets that document as its seventh field, unless it already has one; order and length are kept |
| `Structure.Contribution` | setzer/workspace/sidebar/document_structure_page/structure.py:69-76 | an include is never recursed into: it stands for exactly the child's blocks, completed with their owner, or exactly one `[0, 0, 0, 0, 'file', filename, None]` block |
| `Structure.Expand` | setzer/workspace/sidebar/document_structure_page/structure.py:82-91 | the includes left after the last root block contribute in list order |
| `Structure.AppendContribution` | setzer/workspace/sidebar/document_structure_page/structure.py:69-76 | one include appends either exactly the child's blocks, in order, or exactly one synthetic `file` block |
| `Structure.SplicePending` | setzer/workspace/sidebar/document_structure_page/structure.py:68-77 | the while loop consumes exactly the pending includes whose offset is strictly before the next root block, in list order |
| `Structure.AppendRemaining` | setzer/workspace/sidebar/document_structure_page/structure.py:82-91 | the includes left after the last root block are appended in order |
| `Structure.Merged` | setzer/workspace/sidebar/document_structure_page/structure.py:65-91 | the reference merge order: before each root block come the pending includes whose offset is strictly below its start offset; the rest come at the end |
| `Structure.MergeBlocks` | setzer/workspace/sidebar/document_structure_page/structure.py:65-91 | the merge loops build exactly the merged list: root blocks in order, with each include spliced before the first root block it precedes |
| `Structure.ExpandSize` | setzer/workspace/sidebar/document_structure_page/structure.py:82-91 | the includes contribute one block each when unresolved and the child's block count when resolved |
| `Structure.MergedLength` | setzer/workspace/sidebar/document_structure_page/structure.py:67-91 | merged length is the number of root blocks plus the sum of all contributions |
| `Structure.MergedWithoutIncludes` | setzer/workspace/sidebar/document_structure_page/structure.py:67-80 | without includes the merged list is the root document's blocks, each owned by the root |
| `Structure.ExpandOwned` | setzer/workspace/sidebar/document_structure_page/structure.py:82-91 | every block appended after the root blocks carries its owner field |
| `Structure.MergedOwned` | setzer/workspace/sidebar/document_structure_page/structure.py:67-91 | after the merge every block has seven fields |
| `Structure.IncludeOrderAgainstBlock` | setzer/workspace/sidebar/document_structure_page/structure.py:68 | an include whose offset is strictly below a block's start lands before it; one at the same offset or later lands after it |
| `Structure.ContributionCompleted` | setzer/workspace/sidebar/document_structure_page/structure.py:70-73 | a child whose blocks were already completed in place contributes the same blocks again |
| `Structure.ExpandCompleted` | setzer/workspace/sidebar/document_structure_page/structure.py:82-87 | the same holds for the trailing includes |
| `Structure.RepeatedMergeStable` | setzer/workspace/sidebar/document_structure_page/structure.py:70-87 | a second `update_items` over the blocks mutated by the first gives the same merged list, so no block grows beyond seven fields |
| `Structure.PutSection` | setzer/workspace/sidebar/document_structure_page/structure.py:95-97 | writing a sectioning block keeps the dictionary well formed: keys distinct, each key present, values keyed by their starting line |
| `Structure.CollectSections` | setzer/workspace/sidebar/document_structure_page/structure.py:93-97 | the dictionary is well formed, `last_line` is -1 or a key, and every value is a sectioning block of the merged list |
| `Structure.FilterSections` | setzer/workspace/sidebar/document_structure_page/structure.py:93-97 | the filter loop computes that dictionary, accepting a block only when it has an end offset, a level and a line other than `last_line` |
| `Structure.SectionKeysAreFirstLines` | setzer/workspace/sidebar/document_structure_page/structure.py:93-97 | the keys are the starting lines of all sectioning blocks, each once, in order of first occurrence |
| `Structure.SameLineOverwrites` | setzer/workspace/sidebar/document_structure_page/structure.py:95-96 | a block accepted on a line that is already a key replaces that value and keeps the key's place |
| `Structure.CollectSnoc` | setzer/workspace/sidebar/document_structure_page/structure.py:94-97 | one more block read by the filter either adds/overwrites its line's entry and becomes `last_line`, or changes nothing |
| `Structure.Values` | setzer/workspace/sidebar/document_structure_page/structure.py:103 | `sections.values()` has one section per key, in key order |
| `Structure.SectionsOf` | setzer/workspace/sidebar/document_structure_page/structure.py:93-105 | every section that reaches the nesting loop has a level, so `self.levels[section_type]` cannot fail |
| `Structure.ItemsOf` | setzer/workspace/sidebar/document_structure_page/structure.py:106 | one item per section, in section order |
| `Structure.ItemShape` | setzer/workspace/sidebar/document_structure_page/structure.py:106 | a node's icon is its kind with `-symbolic`, and its title holds no line break |
| `Structure.LevelsOf` | setzer/workspace/sidebar/document_structure_page/structure.py:104-105 | every section has a level below 8, so it indexes the predecessor table |
| `Structure.LastBelow` | setzer/workspace/sidebar/document_structure_page/structure.py:113-114 | the latest earlier section whose level is below the bound, or -1; every section in between has a level at or above it |
| `Structure.ParentOf` | setzer/workspace/sidebar/document_structure_page/structure.py:107-110 | a node's parent is an earlier section of strictly smaller level with no smaller level in between; -1 means a root |
| `Structure.Parents` | setzer/workspace/sidebar/document_structure_page/structure.py:103-114 | one parent per section |
| `Structure.Parse` | setzer/workspace/sidebar/document_structure_page/structure.py:103-114 | reading the nested forest stops at the first section at or above the enclosing level |
| `Structure.Forest` | setzer/workspace/sidebar/document_structure_page/structure.py:99-114 | the nesting of all sections: a section's children are the run after it with deeper levels |
| `Structure.ParsePreorder` | setzer/workspace/sidebar/document_structure_page/structure.py:103-114 | the forest read from a position visits the sections it reads in index order, each once |
| `Structure.LastBelowIs` | setzer/workspace/sidebar/document_structure_page/structure.py:113-114 | any candidate with the latest-below property is the table's answer |
| `Structure.ParseLinks` | setzer/workspace/sidebar/document_structure_page/structure.py:107-114 | every node of the forest is a child of its predecessor-table parent |
| `Structure.ForestShape` | setzer/workspace/sidebar/document_structure_page/structure.py:103-114 | the forest covers every section once, in order, and links each to its table parent |
| `Structure.Label` | setzer/workspace/sidebar/document_structure_page/structure.py:106-111 | the node dicts built from the items, placed on the forest's shape |
| `Structure.LabelPreorder` | setzer/workspace/sidebar/document_structure_page/structure.py:106-111 | the labelled forest's pre-order lists the item of each index it visits |
| `Structure.LabelledForest` | setzer/workspace/sidebar/document_structure_page/structure.py:103-114 | the pre-order of the labelled forest is exactly `nodes_in_line` |
| `Structure.LinkNext` | setzer/workspace/sidebar/document_structure_page/structure.py:105-114 | one step of the table answers the node's parent, and afterwards every slot holds the latest node below that level |
| `Structure.LinkSections` | setzer/workspace/sidebar/document_structure_page/structure.py:99-114 | the nesting loop gives every section its item and its parent, the most recent earlier section of a smaller level |
| `Structure.BuildForest` | setzer/workspace/sidebar/document_structure_page/structure.py:99-114 | the forest's links are the table's parents, and its pre-order equals `nodes_in_line` |
| `Structure.Entries` | setzer/workspace/sidebar/document_structure_page/structure.py:142-156 | the nodes in the order `draw_nodes` visits them, each with its depth (`level`) |
| `Structure.Shown` | setzer/workspace/sidebar/document_structure_page/structure.py:143-153 | the rows painted: an entry is painted on its row number only when that number lies between `first_line` and `last_line` |
| `Structure.DrawStep` | setzer/workspace/sidebar/document_structure_page/structure.py:143-155 | drawing one more node paints its own row and then its subtree's rows |
| `Structure.DrawNodes` | setzer/workspace/sidebar/document_structure_page/structure.py:142-156 | the returned count is the start count plus the number of nodes in the forest; the rows painted are the pre-order entries whose number lies within the window |
| `Structure.EntriesFollowPreorder` | setzer/workspace/sidebar/document_structure_page/structure.py:142-156 | the drawing order is the forest's pre-order, so row `k` shows `nodes_in_line[k]` |
| `Structure.ShownComplete` | setzer/workspace/sidebar/document_structure_page/structure.py:143-153 | every node whose row lies within the window is painted |
| `Structure.ShownSound` | setzer/workspace/sidebar/document_structure_page/structure.py:143-153 | every painted row lies within the window and shows the node its number names |
| `Structure.ClickedRow` | setzer/workspace/sidebar/document_structure_page/structure.py:48 | the clicked index is clamped to `[0, len-1]`, is 0 for an empty list, and is the floored row under the pointer when that row exists |
| `Structure.ViewHeight` | setzer/workspace/sidebar/document_structure_page/structure.py:116-122 | height is 0 exactly when there are no nodes; otherwise nodes times line height plus 33 |
| `Structure.OutlineSections` | setzer/workspace/sidebar/document_structure_page/structure.py:62-105 | the sections of the merged, filtered outline all have a level |
| `Structure.StructureSection.constructor` | setzer/workspace/sidebar/document_structure_page/structure.py:32-42 | a new sidebar has no nodes |
| `Structure.StructureSection.UpdateItems` | setzer/workspace/sidebar/document_structure_page/structure.py:62-128 | after `update_items`, `nodes_in_line` holds the outline's items, `nodes` is their forest with pre-order `nodes_in_line`, and `height` is sized for them |
| `Structure.StructureSection.OnButtonPress` | setzer/workspace/sidebar/document_structure_page/structure.py:44-57 | only a plain left click acts; an empty list raises the index error; otherwise the clicked item's document and line are navigated to, or its file is opened when no document is set |
| `BibTeX.WordRun` | setzer/document/parser/parser_bibtex.py:44 | the maximal run of `\w` characters from a position |
| `BibTeX.KeyRun` | setzer/document/parser/parser_bibtex.py:44 | the maximal run of key-class characters from a position |
| `BibTeX.MatchAt` | setzer/document/parser/parser_bibtex.py:44 | a match at a position is `@`, one or more word characters, `{`, then a non-empty greedy key; the character after the key is outside the key class |
| `BibTeX.MatchAtComplete` | setzer/document/parser/parser_bibtex.py:44 | every occurrence of `@`, a word, `{` and a key character is matched |
| `BibTeX.KeyIsStripped` | setzer/document/parser/parser_bibtex.py:45 | `.strip()` never changes a key |
| `BibTeX.NoAtInsideMatch` | setzer/document/parser/parser_bibtex.py:44 | no `@` lies inside a match, so resuming after a match skips no other match |
| `BibTeX.Scan` | setzer/document/parser/parser_bibtex.py:44-45 | `finditer` from a position: try a match, and resume after its end or one character later |
| `BibTeX.BibItems` | setzer/document/parser/parser_bibtex.py:43-47 | the set of stripped keys of all matches of the text |
| `BibTeX.ScanIff` | setzer/document/parser/parser_bibtex.py:44-45 | the keys `finditer` collects are exactly the keys of the matches at all positions |
| `BibTeX.BibItemsAreKeys` | setzer/document/parser/parser_bibtex.py:43-45 | a string is in `bibitems` exactly when it is the key of some match; every key is non-empty and made of key characters |
| `BibTeX.NoAtNoKeys` | setzer/document/parser/parser_bibtex.py:43-45 | a text without `@` yields the empty set |
| `BibTeX.Delete` | setzer/document/parser/parser_bibtex.py:32 | `text[:start] + text[end:]` with Python's clamped slices |
| `BibTeX.Insert` | setzer/document/parser/parser_bibtex.py:38 | `text[:offset] + s + text[offset:]` with Python's clamped slices |
| `BibTeX.DeleteShape` | setzer/document/parser/parser_bibtex.py:30-32 | deleting `[start, end)` shrinks the mirror by `end - start` and keeps the prefix and the suffix |
| `BibTeX.InsertShape` | setzer/document/parser/parser_bibtex.py:37-38 | inserting grows the mirror by the inserted length and puts the text at the offset, with the rest kept around it |
| `BibTeX.InsertThenDelete` | setzer/document/parser/parser_bibtex.py:29-39 | deleting what was just inserted restores the mirror |
| `BibTeX.ParserBibTeX.constructor` | setzer/document/parser/parser_bibtex.py:24-26 | a new parser has an empty mirror |
| `BibTeX.ParserBibTeX.OnTextDeleted` | setzer/document/parser/parser_bibtex.py:29-33 | the mirror loses the deleted range and `bibitems` is recomputed from the new mirror |
| `BibTeX.ParserBibTeX.OnTextInserted` | setzer/document/parser/parser_bibtex.py:36-39 | the mirror gains the inserted text and `bibitems` is recomputed from the new mirror |
| `BibTeX.ParserBibTeX.ParseSymbols` | setzer/document/parser/parser_bibtex.py:42-47 | `bibitems` is replaced wholesale by the keys of the text; every other symbol kind is untouched |
| `BibTeX.CollectKeys` | setzer/document/parser/parser_bibtex.py:43-45 | the match loop, resuming after each match, collects exactly `BibItems` |
| `Content.ReplaceTabs` | setzer/document/content/content.py:230-234 | every tab becomes `tab_width` spaces when the setting is on; the text is kept otherwise |
| `Content.ReplaceTabsSpec` | setzer/document/content/content.py:230-234 | with the setting on, no tab is left, the length grows by `tab_width - 1` per tab, and character `i` lands at `i` plus `tab_width - 1` for each earlier tab: a tab as `tab_width` spaces there, any other character copied; with the setting off, or without tabs, the text is unchanged |
| `Content.ReplaceAllInPlace` | setzer/document/content/content.py:233 | `str.replace` of one character: character `i` lands at `i` plus `len(rep) - 1` for each earlier occurrence, where `rep` stands in for an occurrence and any other character is copied |
| `Content.IndentationWidth` | setzer/document/content/content.py:164 | the tab-expanded length of the line minus the length of the left-stripped line |
| `Content.IndentationWidthCountsEveryTab` | setzer/document/content/content.py:164 | the indentation width is the leading whitespace plus `tab_width - 1` for every tab of the line, including tabs after the indentation |
| `Content.ReplaceFirstDot` | setzer/document/content/content.py:236-247 | the first `•` is replaced by the selection when there is exactly one `•` and a non-empty selection |
| `Content.ReplaceFirstDotSpec` | setzer/document/content/content.py:236-247 | the text changes only with exactly one `•` and a non-empty selection, and then only that `•` is replaced by the selection |
| `Content.Indented` | setzer/document/content/content.py:263-274 | the `\n`-separated lines joined by a newline followed by the leading whitespace of the text before the cursor |
| `Content.IndentText` | setzer/document/content/content.py:263-274 | the loop produces the lines joined by a newline plus the cursor line's leading whitespace |
| `Content.JoinNewlineWhitespace` | setzer/document/content/content.py:270-273 | that join is the first line followed by every later line prefixed with the whitespace |
| `Content.IndentedLines` | setzer/document/content/content.py:263-274 | re-indenting keeps the number of lines and the first line, and prefixes every later line with the leading whitespace |
| `Content.IndentedWithoutWhitespace` | setzer/document/content/content.py:266-274 | without leading whitespace the text is returned unchanged |
| `Content.TargetLines` | setzer/document/content/content.py:289-295 | the target line numbers are strictly increasing |
| `Content.TargetLinesSpec` | setzer/document/content/content.py:289-295 | without a selection the target is the cursor line; with one, the lines from the start line up to the end line, including the end line only when the selection does not end at its column 0 |
| `Content.Edited` | setzer/document/content/content.py:303-314 | editing keeps the number of lines |
| `Content.Toggled` | setzer/document/content/content.py:297-314 | the lines after the toggle: comment all targets when one is not commented, else uncomment all |
| `Content.ToggledSpec` | setzer/document/content/content.py:297-314 | lines outside the target are kept; when some target line is not commented every target line gets `%` at column 0, otherwise each loses its first non-whitespace character, which is its `%` |
| `Content.CommentThenUncomment` | setzer/document/content/content.py:300-314 | a line with `%` put in front is commented, and uncommenting gives it back |
| `Content.ToggleTwiceRestores` | setzer/document/content/content.py:297-314 | a toggle that commented, followed by another toggle, restores the original lines |
| `Content.SourceBuffer.CommentUncomment` | setzer/document/content/content.py:286-316 | the buffer's lines become the toggled lines |
| `Content.SourceBuffer.CommentLines` | setzer/document/content/content.py:303-305 | every target line gets `%` at column 0 and no other line changes |
| `Content.SourceBuffer.UncommentLines` | setzer/document/content/content.py:306-314 | every target line loses its first non-whitespace character and no other line changes |
| `Content.UsePackages` | setzer/document/content/content.py:613-616 | one `\usepackage{name}` per name, in order |
| `Content.PackageText` | setzer/document/content/content.py:610-616 | the `\usepackage` lines joined by newlines |
| `Content.BuildPackageText` | setzer/document/content/content.py:610-616 | the loop builds the `\usepackage` lines joined by newlines |
| `Content.PackageTextLines` | setzer/document/content/content.py:610-616 | no packages give the empty text; otherwise the lines of the text are the `\usepackage` lines in the order of the names |
| `Content.PackageTextEnd` | setzer/document/content/content.py:613-616 | the text has no trailing newline: it ends with `}` |
| `Content.MaxEnd` | setzer/document/content/content.py:621-626 | the running `max_end`: a package moves it to its end only when it starts strictly after it |
| `Content.MaxPackageEnd` | setzer/document/content/content.py:621-626 | the scan computes `max_end`, which moves only when a package starts strictly after it |
| `Content.MaxEndBounds` | setzer/document/content/content.py:621-626 | `max_end` is 0 or the end of some package, and no package starts after it |
| `Content.MaxEndOrdered` | setzer/document/content/content.py:621-626 | for packages in document order with gaps between them, `max_end` is the end of the last one |
| `Content.AddPackages` | setzer/document/content/content.py:610-640 | the text goes after the line of `max_end` when there are packages, else after the `\documentclass` line, else at the cursor; a newline goes in front whenever there is such an anchor |
| `Content.TruncateWord` | setzer/document/content/content.py:441-446 | `None` for the empty word, otherwise its first two space-separated tokens joined by a space |
| `Content.TruncateWordSpec` | setzer/document/content/content.py:441-446 | an empty word gives `None`; otherwise the result's tokens are the word's first two tokens, it is a prefix of the word, and a word of at most two tokens is unchanged |
| `Content.FindFromSpec` | setzer/document/content/content.py:457 | `find` answers the first occurrence, or -1 when there is none |
| `Content.ContextWindowSpec` | setzer/document/content/content.py:457-459 | the compared window covers the match and lies within the text; with room on both sides it is as long as the context, with the match in place of the word |
| `Content.CandidatesOf` | setzer/document/content/content.py:456-461 | one candidate per match, in match order |
| `Content.Step` | setzer/document/content/content.py:461-466 | one loop step: a qualifying score above threshold + 0.1 replaces the kept ranges and becomes the threshold; one above threshold - 0.1 is appended; others are dropped |
| `Content.Fold` | setzer/document/content/content.py:453-466 | the loop from `top_score = 0.1` and no matches, one step per candidate in match order |
| `Content.FoldThreshold` | setzer/document/content/content.py:453-466 | the threshold starts at 0.1 and never falls; no qualifying score exceeds the final threshold by more than 0.1; something is kept exactly when some match with a boundary character scores above 0 |
| `Content.FoldKept` | setzer/document/content/content.py:453-466 | every kept range is a qualifying match, trimmed by its boundary characters, whose score is within 0.1 of the final threshold |
| `Content.SelectMatches` | setzer/document/content/content.py:453-466 | the loop's `top_score` and `matches` are the fold of the candidates |
| `Content.WordBounds` | setzer/document/content/content.py:441-470 | the result: `None` for the empty word or when nothing is kept, otherwise the kept ranges |
| `Content.SynctexWordBounds` | setzer/document/content/content.py:441-470 | `get_synctex_word_bounds` returns the kept ranges, or `None` when none are kept or the word is empty |
| `Content.WordBoundsNone` | setzer/document/content/content.py:441-470 | the result is `None` exactly for an empty word, or when no match with a boundary character scores above 0 |
| `Content.WordBoundsTrimmed` | setzer/document/content/content.py:461-470 | every returned range is a match with a non-empty boundary group, trimmed by its boundary groups |
| `Autocomplete.KeywordEnd` | setzer/document/autocomplete/autocomplete.py:116 | `\begin{` or `\end{` ends within the line, on its `{` |
| `Autocomplete.BestGroup3Spec` | setzer/document/autocomplete/autocomplete.py:116 | the greedy third group is the longest that fits |
| `Autocomplete.BestGroup2Spec` | setzer/document/autocomplete/autocomplete.py:116 | the greedy second group is the longest after which the rest of the pattern can match |
| `Autocomplete.BestStartSpec` | setzer/document/autocomplete/autocomplete.py:116 | the greedy leading `.*` stops at the last backslash from which the pattern can match |
| `Autocomplete.MatchBeginEnd` | setzer/document/autocomplete/autocomplete.py:116 | `re.match` of the begin/end pattern: the leading `.*`, then greedy group 2, then greedy group 3, each as far as the rest can still match |
| `Autocomplete.MatchIsValid` | setzer/document/autocomplete/autocomplete.py:116 | a match found is a valid split of the line |
| `Autocomplete.MatchExists` | setzer/document/autocomplete/autocomplete.py:116 | any valid split makes the pattern match |
| `Autocomplete.MatchIsFirst` | setzer/document/autocomplete/autocomplete.py:116 | the match found is the first valid split that backtracking tries |
| `Autocomplete.MatchBeginEndSpec` | setzer/document/autocomplete/autocomplete.py:115-117 | the pattern matches exactly when a valid split exists, and then it is the first valid split in backtracking order |
| `Autocomplete.MarkedLineShape` | setzer/document/autocomplete/autocomplete.py:115 | the marked line is the line with `%•%` inserted at the cursor column |
| `Autocomplete.ValidAtCursor` | setzer/document/autocomplete/autocomplete.py:115-116 | when the line holds no `•`, every valid split uses the marker at the cursor |
| `Autocomplete.MatchAtCursor` | setzer/document/autocomplete/autocomplete.py:113-119 | then group 2 runs from the `{` of `\begin{`/`\end{` to the cursor and group 3 from the cursor to a `}`, with no `{[(` in either |
| `Autocomplete.Activation` | setzer/document/autocomplete/autocomplete.py:112-128 | the mode `activate_if_possible` starts: begin/end on a match, else none for no items or an item equal to the word, else default |
| `Autocomplete.ActivationSpec` | setzer/document/autocomplete/autocomplete.py:112-128 | the begin/end mode starts exactly when the pattern matches, and its word contains the cursor; otherwise nothing starts when the provider offers nothing or offers the current word, and the default mode starts in every other case |
| `Autocomplete.ActivationOfMatch` | setzer/document/autocomplete/autocomplete.py:117-120 | the begin/end word starts `len(group2)` before the cursor and spans both groups |
| `Autocomplete.BeginEndWordIsBraced` | setzer/document/autocomplete/autocomplete.py:113-120 | without a `•` in the line, the begin/end word is the text between the braces around the cursor |
| `Autocomplete.Dispatch` | setzer/document/autocomplete/autocomplete.py:77-103 | what `on_keypress` does with a key: the view or mode action for Down, Up, Escape or Return while visible and unmodified, else forward to the mode |
| `Autocomplete.DispatchSpec` | setzer/document/autocomplete/autocomplete.py:80-103 | the popup handles a key itself exactly when it is visible, no modifier is held and the key is Down, Up, Escape or Return, each with its own action |
| `Autocomplete.RowsOf` | setzer/document/autocomplete/autocomplete.py:133-135 | one row per item, in item order, all at the given offset |
| `Autocomplete.AutocompleteController.constructor` | setzer/document/autocomplete/autocomplete.py:46-49 | a new controller is in the blank mode with no items |
| `Autocomplete.AutocompleteController.StartMode` | setzer/document/autocomplete/autocomplete.py:139-141 | the mode becomes the given one and is then updated; nothing else changes |
| `Autocomplete.AutocompleteController.EndMode` | setzer/document/autocomplete/autocomplete.py:143-145 | the mode becomes the blank mode and is then updated |
| `Autocomplete.AutocompleteController.Update` | setzer/document/autocomplete/autocomplete.py:108-110 | the mode is updated only while it is active |
| `Autocomplete.AutocompleteController.ActivateIfPossible` | setzer/document/autocomplete/autocomplete.py:112-128 | the mode that `Activation` names is started and updated; when it names none, mode and log are unchanged |
| `Autocomplete.AutocompleteController.OnBufferChanged` | setzer/document/autocomplete/autocomplete.py:66-68 | activation runs first, then the mode, possibly new, hears of the change |
| `Autocomplete.AutocompleteController.OnKeypress` | setzer/document/autocomplete/autocomplete.py:77-103 | with the popup visible as `is_visible` decides it, a handled key calls only its own action and answers true; every other key is passed to the mode, whose answer is returned |
| `Autocomplete.AutocompleteController.Populate` | setzer/document/autocomplete/autocomplete.py:131-137 | prepending the items in reverse leaves the rows in item order; the first row is selected exactly when there is an item |

## Left out

- Drawing: the GTK widgets, Cairo drawing, hover, focus, scrolling, the view's show/hide calls and signal wiring are not modelled. `draw_nodes` is modelled by the rows it paints (row number, depth, item) and the count it returns. The path shortened with `basename` for a `file` node's label is not modelled.
- Structure.ClickedRow: the pointer's `event.y` is an exact real and `//` is exact floor division; the floating-point rounding of `(event.y - 9) // line_height` is not modelled.
- Structure.StructureSection: `nodes_in_line` is kept as the sequence of the nodes' items only. In the source it holds the node dicts themselves, which share their `children` lists with `nodes`; that aliasing is not modelled, and the click handler reads only `['item']` of them.
- Structure.MergeBlocks: takes the include list as a value. In the source `del(includes[0])` empties the list `get_includes()` returns; if that is the provider's own list, a later `update_items` sees no includes. `Structure.RepeatedMergeStable` assumes the second run is given the same includes as the first.
- Structure.StructureSection.OnButtonPress: returns the navigation it asks for, not the workspace calls. Opening a file by name and placing the cursor happen in code outside this model.
- Structure: the blocks of included documents come from a total function. That function stands for each open document's `get_blocks()`; mutation through aliasing is captured only as the completed block lists of `CompletedDocs`.
- BibTeX.IsWordChar: `\w` of the `regex` module covers all Unicode letters and decimal digits (Alphabetic and Nd), the connector punctuation (Pc, which includes `_`), the combining marks (categories Mn, Mc and Me) and the join controls U+200C and U+200D. The model uses ASCII letters and digits, the underscore and the Latin-1 letters only. Nothing proved depends on this choice except the exact set of keys found.
- BibTeX: the regex engine is modelled only for the one pattern, as a scanner that resumes after every match.
- Content: all GtkSource buffer plumbing is left out: iterators, marks, tags, undo grouping, clipboard, cursor placement and signal handlers. The buffer is a sequence of lines without terminators.
- Content.AddPackages: where `forward_to_line_end` lands is the `lineEnd` parameter, and the last `\documentclass` line is an input. Inserting the text and selecting its placeholder (`insert_text_at_cursor_indent_and_select_dot`) are not modelled beyond re-indenting (`Content.IndentText`).
- Content.SourceBuffer.UncommentLines: requires every target line to be commented. That is the only case in which `comment_uncomment` runs its uncomment loop.
- Content.SynctexWordBounds: the regular expression built from the word and the `difflib` similarity ratio are parameters. Scores are exact reals, not floating-point numbers.
- Content: the synctex tag timers (`remove_or_color_synctex_tags`), scrolling, easing and `update_placeholder_selection` are left out; they depend on clocks, floating point and iterator behaviour not available here.
- Content: the indentation tags at line 164 are modelled only by the width they are chosen by (`Content.IndentationWidth`), not by applying tags.
- Autocomplete: the modes, the provider, the view and `get_latex_command_at_cursor` are collaborators. Their answers are inputs, and the calls made on them are recorded in `effects`. What a mode does when updated, cancelled or submitted, and calls from modes back into the controller, are not modelled.
- Autocomplete.AutocompleteController.Populate: assumes that `empty_list` clears the selection.
- Autocomplete: `on_text_inserted`, `on_text_deleted`, `on_cursor_changed`, `on_row_activated` and `submit` only forward to the mode and are not modelled.
- `document/parser/latex_parser.py` is not part of this model. Its label pattern comes from a service that is not shown.
- The document wizard and preferences dialogs are widget construction only and are not modelled.
