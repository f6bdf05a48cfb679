# 16Core Character Mapper — a Dafny model of its core

The 16Core Character Mapper places the characters of a story on sixteen personality-trait
lines. Each line runs from 0 (low pole) to 1 (high pole). A character gets its positions
by dragging or from a personality questionnaire. The application exists twice:

- a cross-platform edition: a shared `Core` library of models, services and view models,
  with an Avalonia front end;
- an older WPF edition with its own models, view models, window and converters.

This project models the logic of both editions as immutable datatypes and pure functions,
and proves what that logic promises.

## What is modelled

- **Data**: characters, projects and the trait catalog of both editions (`Models`,
  `WpfModel`, `Traits`).
- **Trait positions**: lookup, migration from name keys and the 0.5 default
  (`Models.GetTraitPosition`).
- **Scoring**: the questionnaire scoring service (`Scoring`):
  - reverse keying and skipping of off-scale answers;
  - per-trait sums and counts, normalisation to [0, 1], and the clamp.
- **Questionnaire**: the questionnaire view model (`Questionnaire`):
  - grouping by trait and restoring saved answers and exclusions;
  - paging, skipping and cancelling;
  - the treatment of unanswered and excluded groups on submission, and what is saved.
- **Main view models** of both editions (`MainViewModel`, `WpfMainViewModel`):
  - the window title and dirty flag, adding, editing and deleting characters;
  - lock and visibility toggles, save and save-as;
  - the unsaved-changes confirmation, new project and closing.
- **Default names**: the first free "Character n", compared ignoring case (`Naming`).
- **Character editing**:
  - the edit view models of both editions (`EditCharacter`, `WpfEditCharacter`);
  - the Avalonia edit dialog with its colour picker (`EditDialog`, `ColorPicker`);
  - colour text formats and parsing (`Colors`).
- **Character lists**:
  - size-group lists sorted by display order, and drag-and-drop reordering with renumbering
    (`Ordering`, `CharacterList`, `WpfList`);
  - the trait-notes editor and export (`CharacterList`);
  - the WPF drag of a bubble along a trait line (`WpfList`).
- **Export selection**: the export-selection window (`ExportSelection`).
- **Value converters**: the converters of both front ends (`Converters`, `WpfConverters`).
- **Tutorial**: the guided tutorial of both windows as an event-driven state machine
  (`Tutorial`, `WpfTutorial`).
- **Updates**: the update check, with the platform address chosen and the version compared
  (`UpdateService`).

## How things are represented

- Characters are referred to by their index in the project's character list.
- The selected character is either listed (by index) or detached: a character that a
  delete or a new project took out of the project while it stayed selected.
- Scores and positions are `real` numbers.
- Everything the code obtains from outside becomes a parameter:
  - dialog answers and the file chosen in a save dialog;
  - whether a file write succeeds;
  - the running platform and architecture;
  - the fetched update document;
  - the localized trait texts;
  - the character-by-character case fold of `StringComparer.OrdinalIgnoreCase`;
  - `Version.TryParse`.
- Bound values of the converters are a tagged union of the kinds the bindings supply.
- The toolkit's table of named colours is a parameter (`Colors.KnownColors`).
- A `Character` stores the positions it is given, without clamping them. Only the drag
  computation (`WpfList.DragPosition`) and the scoring clamp. The values actually written
  stay within [0, 1] (`Models.GetTraitPositionKeepsRange`, `EditDialog.MergeKeepsRange`).

## Model

| member | source | states |
|---|---|---|
| Traits.SizeValue | SixteenCoreCharacterMapper.Core/Models/Character.cs:7-12 | The stored integer of a bubble size is one of 0, 1, 2, and Large is 2. |
| Traits.SizeValueInjective | SixteenCoreCharacterMapper.Core/Models/Character.cs:7-12 | The stored integer identifies the size, so a saved size reads back as itself. |
| Traits.All | TraitDefinitions.cs:11-35 | The catalog has sixteen traits with distinct ids, from Warmth to Emotionality. Each trait shows the name and pole labels of its own id in the current culture. |
| Traits.IdsIndependentOfCulture | TraitDefinitions.cs:17-32 | Two cultures give catalogs with the same ids in the same order; only the texts change. |
| Models.NewCharacter | SixteenCoreCharacterMapper.Core/Models/Character.cs:16-35 | A new character is unnamed, red, large, unlocked and visible, with display order 0 and no positions, answers or exclusions. |
| Models.NewProject | SixteenCoreCharacterMapper.Core/Models/Project.cs:5-10 | A new project is unnamed and English, with no characters. |
| Models.GetTraitPosition | SixteenCoreCharacterMapper.Core/Models/Character.cs:37-55 | Returns the position stored under the trait id. Otherwise a position stored under the localized name is moved to the id. Otherwise 0.5 is stored under the id. Only those keys change. |
| Models.GetTraitPositionIdempotent | SixteenCoreCharacterMapper.Core/Models/Character.cs:37-55 | Asking again gives the same answer and changes nothing more. |
| Models.GetTraitPositionKeepsRange | SixteenCoreCharacterMapper.Core/Models/Character.cs:43-54 | When all stored positions are in [0, 1], the answer and every position afterwards are too. |
| WpfModel.NewCharacter | Character.cs:17-22 | A new WPF character is unnamed, red, large, unlocked and visible, with display order 0 and no positions. |
| WpfModel.NewProject | Project.cs:5-13 | A new WPF project is unnamed and English, with no characters. |
| WpfModel.Assign | Character.cs:26-102 | After a setter runs, its property holds the value. A change notification is raised exactly when the value was new. No other property and no position changes. |
| WpfModel.AssignTwice | Character.cs:26-102 | Repeating an assignment changes nothing and notifies nothing. |
| WpfModel.AssignCommutes | Character.cs:26-102 | Assignments to different properties can happen in either order. |
| Scoring.ItemScore | SixteenCoreCharacterMapper.Core/Services/QuestionnaireService.cs:66-68 | An on-scale answer contributes a value on the scale. A reverse-keyed question mirrors it (answer + score = 6). |
| Scoring.Scores | SixteenCoreCharacterMapper.Core/Services/QuestionnaireService.cs:55-107 | Reference scores: exactly the traits with an on-scale answer get a score, and every score lies in [0, 1]. |
| Scoring.AnsweredIffCounted | SixteenCoreCharacterMapper.Core/Services/QuestionnaireService.cs:70-77 | A trait is tallied exactly when its count is positive, so the zero-count branch is never reached. |
| Scoring.AnsweredMembership | SixteenCoreCharacterMapper.Core/Services/QuestionnaireService.cs:62-78 | A trait is scored exactly when one of its questions has an answer from 1 to 5. |
| Scoring.SumBounds | SixteenCoreCharacterMapper.Core/Services/QuestionnaireService.cs:93-101 | Each sum lies between its count and five times its count. The normalised value lies in [0, 1], so the clamp changes nothing. |
| Scoring.TallyAnswers | SixteenCoreCharacterMapper.Core/Services/QuestionnaireService.cs:62-78 | The first loop tallies every answered trait, and only those, with the sum and count of its on-scale answers. |
| Scoring.TallyStep | SixteenCoreCharacterMapper.Core/Services/QuestionnaireService.cs:64-78 | One more answer adds its item score and one to its own trait only, and makes that trait answered. |
| Scoring.CalculateScores | SixteenCoreCharacterMapper.Core/Services/QuestionnaireService.cs:55-107 | The service returns exactly the reference scores. |
| Scoring.NormalizeTallies | SixteenCoreCharacterMapper.Core/Services/QuestionnaireService.cs:80-104 | The second loop gives one score per tallied trait, computed from that trait's sum and count. |
| Scoring.TalliesGiveScores | SixteenCoreCharacterMapper.Core/Services/QuestionnaireService.cs:80-104 | Normalising correct tallies trait by trait gives the reference scores. |
| Scoring.NormalizeScore | SixteenCoreCharacterMapper.Core/Services/QuestionnaireService.cs:85-101 | Every score is in [0, 1]. Within reachable sums it is where the sum lies between count and 5 × count. |
| Scoring.CountSumAppend | SixteenCoreCharacterMapper.Core/Services/QuestionnaireService.cs:62-78 | Tallying two batches one after the other adds their counts and sums. |
| Scoring.CountSumPermutation | SixteenCoreCharacterMapper.Core/Services/QuestionnaireService.cs:62-78 | Counts and sums depend only on which answers are given, not on their order. |
| Scoring.ScoresPermutationInvariant | SixteenCoreCharacterMapper.Core/Services/QuestionnaireService.cs:55-107 | The scores do not depend on the order in which the dictionary is enumerated. |
| Scoring.Mirror | SixteenCoreCharacterMapper.Core/Services/QuestionnaireService.cs:68 | Mirroring flips each question's keying and replaces each answer a by 6 − a. |
| Scoring.MirrorPreservesScores | SixteenCoreCharacterMapper.Core/Services/QuestionnaireService.cs:66-68 | Reverse keying is a mirror of the scale: mirrored answers to mirrored questions score the same. |
| Scoring.MirrorCountSum | SixteenCoreCharacterMapper.Core/Services/QuestionnaireService.cs:66-77 | Mirroring keeps every count and sum. |
| Scoring.LowestAnswersScoreZero | SixteenCoreCharacterMapper.Core/Services/QuestionnaireService.cs:93-97 | Answering every question of a trait at the low end of its keying scores 0. |
| Scoring.HighestAnswersScoreOne | SixteenCoreCharacterMapper.Core/Services/QuestionnaireService.cs:93-97 | Answering every question of a trait at the high end of its keying scores 1. |
| Scoring.MiddleAnswersScoreHalf | SixteenCoreCharacterMapper.Core/Services/QuestionnaireService.cs:93-97 | Answering every question of a trait with 3 scores 0.5, whatever the keying. |
| Questionnaire.TraitKeys | SixteenCoreCharacterMapper.Core/ViewModels/QuestionnaireViewModel.cs:93 | The group keys are distinct. Every question's trait is among them, and each key comes from some question. |
| Questionnaire.OfTrait | SixteenCoreCharacterMapper.Core/ViewModels/QuestionnaireViewModel.cs:93 | A group holds only questions of its own trait. |
| Questionnaire.OfTraitEmptyIff | SixteenCoreCharacterMapper.Core/ViewModels/QuestionnaireViewModel.cs:93 | A trait's group is empty exactly when no question measures that trait. |
| Questionnaire.TitleFor | SixteenCoreCharacterMapper.Core/ViewModels/QuestionnaireViewModel.cs:97 | A trait without a localized name is titled by its id. |
| Questionnaire.Restore | SixteenCoreCharacterMapper.Core/ViewModels/QuestionnaireViewModel.cs:104-107 | A question without a saved answer starts unanswered. |
| Questionnaire.LoadGroups | SixteenCoreCharacterMapper.Core/ViewModels/QuestionnaireViewModel.cs:87-130 | There is one non-empty page per trait, titled by its localized name. Each page holds that trait's questions with restored answers. A page is excluded exactly when the saved exclusions contain its trait id. |
| Questionnaire.QuestionsOf | SixteenCoreCharacterMapper.Core/ViewModels/QuestionnaireViewModel.cs:14-25 | Lists the questions of the items, one for one. |
| Questionnaire.RegroupIsPermutation | SixteenCoreCharacterMapper.Core/ViewModels/QuestionnaireViewModel.cs:93 | Grouping by trait neither drops nor duplicates a question. |
| Questionnaire.LoadShowsEveryQuestionOnce | SixteenCoreCharacterMapper.Core/ViewModels/QuestionnaireViewModel.cs:87-130 | Across all pages, each loaded question appears exactly as often as in the input. |
| Questionnaire.UpdateProgress | SixteenCoreCharacterMapper.Core/ViewModels/QuestionnaireViewModel.cs:214-219 | Progress, first-page and last-page flags agree with the current page. |
| Questionnaire.Loaded | SixteenCoreCharacterMapper.Core/ViewModels/QuestionnaireViewModel.cs:122-127 | After loading, the first page shows with consistent indicators. Without pages the initial values stay. |
| Questionnaire.Next | SixteenCoreCharacterMapper.Core/ViewModels/QuestionnaireViewModel.cs:133-145 | Before the last page, goes one page on. On the last page, closes with the submission as written. |
| Questionnaire.NextById | SixteenCoreCharacterMapper.Core/ViewModels/QuestionnaireViewModel.cs:133-145 | With the corrected submission: the same as Next, except that on the last page the exclusions are saved by trait id. |
| Questionnaire.Previous | SixteenCoreCharacterMapper.Core/ViewModels/QuestionnaireViewModel.cs:148-156 | Goes one page back, and does nothing on the first page. |
| Questionnaire.SkipGroup | SixteenCoreCharacterMapper.Core/ViewModels/QuestionnaireViewModel.cs:159-162 | Skipping a page behaves exactly as Next. |
| Questionnaire.SkipRest | SixteenCoreCharacterMapper.Core/ViewModels/QuestionnaireViewModel.cs:165-168 | Closes at once with the submission, as written, of everything answered so far. |
| Questionnaire.SkipRestById | SixteenCoreCharacterMapper.Core/ViewModels/QuestionnaireViewModel.cs:165-168 | With the corrected submission: the same as SkipRest, except that the exclusions are saved by trait id. |
| Questionnaire.Cancel | SixteenCoreCharacterMapper.Core/ViewModels/QuestionnaireViewModel.cs:171-174 | Closes with no scores, no answers and no exclusions. |
| Questionnaire.SetAnswer | SixteenCoreCharacterMapper.Core/ViewModels/QuestionnaireViewModel.cs:14-25 | Choosing an answer changes that one answer on the current page and nothing else. |
| Questionnaire.SetInclude | SixteenCoreCharacterMapper.Core/ViewModels/QuestionnaireViewModel.cs:27-40 | The include box changes only the current page's flag. |
| Questionnaire.Effective | SixteenCoreCharacterMapper.Core/ViewModels/QuestionnaireViewModel.cs:201-206 | In a scored page, a given answer counts as itself and an unanswered question counts as 3. |
| Questionnaire.EffectiveAnswers | SixteenCoreCharacterMapper.Core/ViewModels/QuestionnaireViewModel.cs:201-206 | Every question of a page is passed on with its effective answer. |
| Questionnaire.Submit | SixteenCoreCharacterMapper.Core/ViewModels/QuestionnaireViewModel.cs:176-212 | Submission as written. Scores, answers and exclusions are all present. Exactly the traits answered on scored pages are scored, each in [0, 1]. |
| Questionnaire.ToScoreMembership | SixteenCoreCharacterMapper.Core/ViewModels/QuestionnaireViewModel.cs:189-206 | Exactly the questions of included pages with at least one answer reach the service, each with its effective answer. |
| Questionnaire.SubmitScoresTraits | SixteenCoreCharacterMapper.Core/ViewModels/QuestionnaireViewModel.cs:189-210 | A trait gets a score exactly when some included, partly answered page has a question of that trait. |
| Questionnaire.RawAnswersSpec | SixteenCoreCharacterMapper.Core/ViewModels/QuestionnaireViewModel.cs:196-199 | A question text is saved exactly when some question with that text is answered. It is saved with the last such answer. |
| Questionnaire.AnswersRoundTrip | SixteenCoreCharacterMapper.Core/ViewModels/QuestionnaireViewModel.cs:104-107 | When question texts are distinct, saving and reloading gives every question back its answer, or none. |
| Questionnaire.ExclusionsSpec | SixteenCoreCharacterMapper.Core/ViewModels/QuestionnaireViewModel.cs:185-188 | As written, the saved exclusions are the titles of exactly the excluded pages, one per page. |
| Questionnaire.ExclusionLostOnReload | SixteenCoreCharacterMapper.Core/ViewModels/QuestionnaireViewModel.cs:112-115 | A page excluded before closing comes back included when the trait's name differs from its id. |
| Questionnaire.ExclusionIdsMembership | SixteenCoreCharacterMapper.Core/ViewModels/QuestionnaireViewModel.cs:185-188 | The corrected exclusion list holds exactly the trait ids of the excluded pages. |
| Questionnaire.SubmitById | SixteenCoreCharacterMapper.Core/ViewModels/QuestionnaireViewModel.cs:176-212 | Corrected submission: the same scores and answers, with exclusions saved as the excluded pages' trait ids. |
| Questionnaire.ExclusionIdsRoundTrip | SixteenCoreCharacterMapper.Core/ViewModels/QuestionnaireViewModel.cs:112-115 | Saving exclusions by trait id survives reopening: exactly the pages excluded before start excluded. |
| Naming.FileName | SixteenCoreCharacterMapper.Core/ViewModels/MainWindowViewModel.cs:176-182 | The file name is the longest suffix of the path without a directory separator. |
| Naming.Title | SixteenCoreCharacterMapper.Core/ViewModels/MainWindowViewModel.cs:176-182 | The title starts with the application name. With unsaved changes it is the saved title followed by a star. |
| Naming.TitleShowsDirty | SixteenCoreCharacterMapper.Core/ViewModels/MainWindowViewModel.cs:176-182 | The title always tells whether there are unsaved changes. |
| Naming.DefaultNumber | SixteenCoreCharacterMapper.Core/ViewModels/MainWindowViewModel.cs:277-284 | The search stops at the smallest n ≥ 1 whose "Character n" is unused, ignoring case. It always stops. |
| Naming.DefaultName | SixteenCoreCharacterMapper.Core/ViewModels/MainWindowViewModel.cs:277-284 | The default name differs, ignoring case, from every existing name, and is the first such candidate. |
| MainViewModel.HasNotes | SixteenCoreCharacterMapper.Core/ViewModels/MainWindowViewModel.cs:166-169 | The notes flag is set exactly when some note is not blank. |
| MainViewModel.Initial | SixteenCoreCharacterMapper.Core/ViewModels/MainWindowViewModel.cs:63-93 | A new window shows a new, unsaved, clean project titled "New Project". |
| MainViewModel.SetDirty | SixteenCoreCharacterMapper.Core/ViewModels/MainWindowViewModel.cs:159-164 | Setting the dirty flag refreshes the title and the notes flag and changes nothing else. |
| MainViewModel.SetProjectName | SixteenCoreCharacterMapper.Core/ViewModels/MainWindowViewModel.cs:126-142 | Renaming changes the name and marks the project dirty, keeping the derived state current. |
| MainViewModel.AddCharacter | SixteenCoreCharacterMapper.Core/ViewModels/MainWindowViewModel.cs:271-293 | A cancelled dialog changes nothing. Otherwise the new character is appended with display order equal to the old count. A blank name becomes "Character n" for the least n >= 1 that no character has, ignoring case. |
| MainViewModel.AddedName | SixteenCoreCharacterMapper.Core/ViewModels/MainWindowViewModel.cs:276-283 | A name that is not blank is kept. A blank name becomes "Character n" for the least n >= 1 that no character has, ignoring case. |
| MainViewModel.Unlisted | SixteenCoreCharacterMapper.Core/ViewModels/MainWindowViewModel.cs:308-321 | A selection whose character leaves the project keeps that character, detached. |
| MainViewModel.EditCharacter | SixteenCoreCharacterMapper.Core/ViewModels/MainWindowViewModel.cs:295-306 | Only the selected character is replaced, and only a confirmed edit marks the project dirty. A detached selection is edited outside the project, which stays as it was. |
| MainViewModel.EditWithSameKeepsProject | SixteenCoreCharacterMapper.Core/ViewModels/MainWindowViewModel.cs:295-306 | Confirming the edit with the character unchanged keeps the project and marks it dirty. |
| MainViewModel.DeleteCharacter | SixteenCoreCharacterMapper.Core/ViewModels/MainWindowViewModel.cs:308-321 | A confirmed delete removes exactly the selected character, keeping the others in order. The removed character stays selected. Deleting a detached selection removes nothing but marks the project dirty. |
| MainViewModel.SecondDeleteRemovesNothing | SixteenCoreCharacterMapper.Core/ViewModels/MainWindowViewModel.cs:308-321 | A second confirmed delete removes nothing and leaves the project dirty. |
| MainViewModel.ToggleFlag | SixteenCoreCharacterMapper.Core/ViewModels/MainWindowViewModel.cs:329-349 | A toggle flips one flag of one character, marks the project dirty, and leaves the other characters alone. |
| MainViewModel.ToggleTwice | SixteenCoreCharacterMapper.Core/ViewModels/MainWindowViewModel.cs:329-349 | Toggling twice restores the project. |
| MainViewModel.SaveProject | SixteenCoreCharacterMapper.Core/ViewModels/MainWindowViewModel.cs:232-269 | Without a file, a cancelled save dialog changes nothing. Otherwise the chosen file becomes current and the language is stored. Only a successful write clears the dirty flag. |
| MainViewModel.ConfirmAsWritten | SixteenCoreCharacterMapper.Core/ViewModels/MainWindowViewModel.cs:364-375 | As written: Yes saves and answers "go on" however the save ended. No goes on. Cancel stops. |
| MainViewModel.ConfirmAsWrittenIgnoresFailedSave | SixteenCoreCharacterMapper.Core/ViewModels/MainWindowViewModel.cs:364-375 | Yes followed by a cancelled save-as answers "go on" while the project is still unsaved. |
| MainViewModel.Confirm | SixteenCoreCharacterMapper.Core/ViewModels/MainWindowViewModel.cs:364-375 | Corrected: go on exactly when nothing is unsaved, the answer is No, or Yes was followed by a successful save. |
| MainViewModel.ConfirmAgreesWhenSaveSucceeds | SixteenCoreCharacterMapper.Core/ViewModels/MainWindowViewModel.cs:364-375 | The corrected and as-written confirmations agree except when the save after Yes fails or is cancelled. |
| MainViewModel.StartNew | SixteenCoreCharacterMapper.Core/ViewModels/MainWindowViewModel.cs:189-193 | A new clean project without a file, characters or notes. A selected character stays selected, detached. |
| MainViewModel.NewProjectCommand | SixteenCoreCharacterMapper.Core/ViewModels/MainWindowViewModel.cs:184-197 | Uses the confirmation as written. Once it agrees, a new clean project without a file, characters or notes. Otherwise the state the confirmation left. Only Cancel on unsaved changes keeps the project. |
| MainViewModel.NewProjectDiscardsAfterFailedSave | SixteenCoreCharacterMapper.Core/ViewModels/MainWindowViewModel.cs:184-197 | Yes followed by a cancelled save-as still replaces the unsaved project. |
| MainViewModel.NewProjectCommandIntended | SixteenCoreCharacterMapper.Core/ViewModels/MainWindowViewModel.cs:184-197 | With the corrected confirmation, a failed save keeps the project. Otherwise it behaves as NewProjectCommand. |
| MainViewModel.Closing | SixteenCoreCharacterMapper.Core/ViewModels/MainWindowViewModel.cs:379-388 | Closing is held back exactly when there are unsaved changes and the window is not already exiting. |
| MainViewModel.HandleExit | SixteenCoreCharacterMapper.Core/ViewModels/MainWindowViewModel.cs:390-397 | Uses the confirmation as written. The window closes for good exactly when there is nothing unsaved or the answer is not Cancel. It is then no longer held back. |
| MainViewModel.ExitAfterFailedSaveCloses | SixteenCoreCharacterMapper.Core/ViewModels/MainWindowViewModel.cs:390-397 | Yes followed by a cancelled save-as still closes the window with the changes unsaved. |
| MainViewModel.HandleExitIntended | SixteenCoreCharacterMapper.Core/ViewModels/MainWindowViewModel.cs:390-397 | With the corrected confirmation, the window closes only when nothing is unsaved or the answer is No. Otherwise it behaves as HandleExit. |
| WpfMainViewModel.Initial | ViewModels/MainWindowViewModel.cs:117-150 | A new WPF window shows a new, clean English project without a file. |
| WpfMainViewModel.SetDirty | ViewModels/MainWindowViewModel.cs:173-185 | Setting the dirty flag refreshes the title and nothing else. |
| WpfMainViewModel.SetProjectName | ViewModels/MainWindowViewModel.cs:62-80 | Renaming always marks the project dirty. |
| WpfMainViewModel.AddCharacter | ViewModels/MainWindowViewModel.cs:276-299 | Appends the dialog's character with display order equal to the old count. A blank name becomes "Character n" for the least n >= 1 that no character has, ignoring case. |
| WpfMainViewModel.Unlisted | ViewModels/MainWindowViewModel.cs:313-328 | A selection whose character leaves the project keeps that character, detached. |
| WpfMainViewModel.EditCharacter | ViewModels/MainWindowViewModel.cs:301-311 | Replaces only the selected character, and only OK marks the project dirty. A detached selection is edited outside the project. |
| WpfMainViewModel.DeleteCharacter | ViewModels/MainWindowViewModel.cs:313-328 | After Yes, removes exactly the selected character, which stays selected. Deleting a detached selection removes nothing but marks the project dirty. |
| WpfMainViewModel.ToggleFlag | ViewModels/MainWindowViewModel.cs:330-350 | Flips one flag of one character and marks the project dirty. |
| WpfMainViewModel.SaveProject | ViewModels/MainWindowViewModel.cs:228-274 | The project counts as saved exactly when there is a file and the write succeeds. Only then is the dirty flag cleared. |
| WpfMainViewModel.Confirm | ViewModels/MainWindowViewModel.cs:352-367 | Goes on exactly when nothing is unsaved, the answer is No, or Yes was followed by a successful save. |
| WpfMainViewModel.NewProjectCommand | ViewModels/MainWindowViewModel.cs:187-196 | Once confirmed, a new clean project without a file. A selected character stays selected, detached. |
| WpfMainViewModel.Closing | ViewModels/MainWindowViewModel.cs:369-375 | Closing is cancelled exactly when there are unsaved changes and the user cancels or the save fails. |
| Ordering.IndexOf | SixteenCoreCharacterMapper.Avalonia/MainWindow.axaml.cs:1038-1067 | Gives the first position of an element, or −1 exactly when it is absent. |
| Ordering.RemoveFirst | SixteenCoreCharacterMapper.Avalonia/MainWindow.axaml.cs:1038-1067 | Removing cuts out the first occurrence and leaves a list without it unchanged. |
| Ordering.OfSizeMembers | SixteenCoreCharacterMapper.Avalonia/MainWindow.axaml.cs:145-153 | The size filter lists exactly the characters of that size. |
| Ordering.SortByOrder | SixteenCoreCharacterMapper.Avalonia/MainWindow.axaml.cs:144 | Sorting by display order permutes the characters. |
| Ordering.SortByOrderSorted | SixteenCoreCharacterMapper.Avalonia/MainWindow.axaml.cs:144 | The result is in stable display order: by display order, ties in collection order. |
| Ordering.SortedUnique | SixteenCoreCharacterMapper.Avalonia/MainWindow.axaml.cs:144 | There is only one stable display order of a set of characters. |
| Ordering.GroupFacts | SixteenCoreCharacterMapper.Avalonia/MainWindow.axaml.cs:135-161 | A size group lists exactly the characters of that size, sorted. |
| Ordering.Lists | SixteenCoreCharacterMapper.Avalonia/MainWindow.axaml.cs:135-161 | Sorting everything and then dealing by size gives the three sorted size groups. |
| Ordering.Reordered | SixteenCoreCharacterMapper.Avalonia/MainWindow.axaml.cs:1038-1067 | The new group order is a permutation of the group. |
| Ordering.PerformReorder | SixteenCoreCharacterMapper.Avalonia/MainWindow.axaml.cs:1038-1067 | Across sizes nothing changes. Otherwise the group gets orders 0, 1, 2, … in its new order, and other groups keep theirs. |
| Ordering.MoveToEnd | SixteenCoreCharacterMapper.Avalonia/MainWindow.axaml.cs:1021-1034 | The fallback changes display orders only. |
| Ordering.ReorderPlacesNextToTarget | SixteenCoreCharacterMapper.Avalonia/MainWindow.axaml.cs:1003-1008 | The dropped character lands immediately before the target, or after it on the lower half. |
| Ordering.ReorderOntoAbsentAppends | SixteenCoreCharacterMapper.Avalonia/MainWindow.axaml.cs:1038-1067 | A target outside the rest of the group sends the dropped character to the end. |
| Ordering.ReorderKeepsOthersInOrder | SixteenCoreCharacterMapper.Avalonia/MainWindow.axaml.cs:1038-1067 | The rest of the group keeps its relative order. |
| Ordering.ReorderShowsNewOrder | SixteenCoreCharacterMapper.Avalonia/MainWindow.axaml.cs:1038-1067 | After renumbering, re-sorting the group shows exactly the new order. |
| Ordering.MoveToEndIsReorderOntoItself | SixteenCoreCharacterMapper.Avalonia/MainWindow.axaml.cs:1021-1034 | The fallback is the same as a reorder onto the dropped character itself. |
| CharacterList.Slots | SixteenCoreCharacterMapper.Avalonia/MainWindow.axaml.cs:1038-1067 | What ordering sees is each character's size and display order. |
| CharacterList.WriteBack | SixteenCoreCharacterMapper.Avalonia/MainWindow.axaml.cs:1060-1063 | Writing orders back changes display orders only. |
| CharacterList.PerformReorder | SixteenCoreCharacterMapper.Avalonia/MainWindow.axaml.cs:1038-1067 | Only display orders change. Across sizes nothing happens and nothing is marked dirty. Otherwise the group is renumbered in its new order and the project marked dirty. |
| CharacterList.MoveToEnd | SixteenCoreCharacterMapper.Avalonia/MainWindow.axaml.cs:1021-1034 | The dragged character goes last in its group, the group is renumbered, and the project marked dirty. |
| CharacterList.Drop | SixteenCoreCharacterMapper.Avalonia/MainWindow.axaml.cs:970-1036 | A drop on another size's list does nothing. A drop on another character reorders. Any other drop moves the character to the end of its group. |
| CharacterList.ListedFacts | SixteenCoreCharacterMapper.Avalonia/MainWindow.axaml.cs:135-161 | A size list holds exactly the characters of that size, without repeats, by non-decreasing display order. |
| CharacterList.UpdateGroups | SixteenCoreCharacterMapper.Avalonia/MainWindow.axaml.cs:135-161 | The Main, Supporting and Background lists hold exactly the large, medium and small characters, each by display order. |
| CharacterList.ReorderShowsNewOrder | SixteenCoreCharacterMapper.Avalonia/MainWindow.axaml.cs:1038-1067 | After a reorder the list shows the group in its new order. |
| CharacterList.ExportNotes | SixteenCoreCharacterMapper.Avalonia/MainWindow.axaml.cs:537-552 | Notes are exported exactly when the project has a notes map, and the text begins with the project header. |
| CharacterList.NoteBlocksAppend | SixteenCoreCharacterMapper.Avalonia/MainWindow.axaml.cs:537-552 | The export of two runs of traits is the export of each, one after the other. |
| CharacterList.BlankNoteInvisible | SixteenCoreCharacterMapper.Avalonia/MainWindow.axaml.cs:537-552 | A blank note exports exactly as no note. |
| CharacterList.NoNotesHeaderOnly | SixteenCoreCharacterMapper.Avalonia/MainWindow.axaml.cs:537-552 | Without a non-blank note only the header is written. |
| CharacterList.OneNoteOneBlock | SixteenCoreCharacterMapper.Avalonia/MainWindow.axaml.cs:537-552 | One noted trait exports exactly its bracketed name, note and separator. |
| CharacterList.EditNote | SixteenCoreCharacterMapper.Avalonia/MainWindow.axaml.cs:1159-1165 | Typing a note stores the text (empty for none) under the trait id, creating the map if needed. Other notes and the rest of the project are unchanged. |
| CharacterList.NoteTextChanged | SixteenCoreCharacterMapper.Avalonia/MainWindow.axaml.cs:1157-1166 | The note is stored and the project is marked dirty. A note that is not blank means the project has notes. |
| CharacterList.EditNoteOverwrites | SixteenCoreCharacterMapper.Avalonia/MainWindow.axaml.cs:1159-1166 | A later note for a trait replaces an earlier one. |
| WpfList.Slots | MainWindow.xaml.cs:395-424 | What ordering sees is each WPF character's size and display order. |
| WpfList.WriteBack | MainWindow.xaml.cs:395-424 | Writing orders back changes display orders only. |
| WpfList.PerformReorder | MainWindow.xaml.cs:395-424 | Same promise as the cross-platform reorder: only display orders change, and across sizes nothing happens. |
| WpfList.Drop | MainWindow.xaml.cs:329-363 | A drop on another character reorders. Any other drop moves the dragged character to the end of its group. There is no list-size check. |
| WpfList.MoveToEnd | MainWindow.xaml.cs:347-361 | The fallback puts the character last in its group, renumbers it, and marks the project dirty. |
| WpfList.DropElsewhereIsReorderOntoItself | MainWindow.xaml.cs:329-424 | A drop away from every item is a reorder onto the dragged character itself. |
| WpfList.FillDefaults | MainWindow.xaml.cs:545-548 | Only missing names get 0.5, and existing positions are kept. |
| WpfList.RedrawDefaults | MainWindow.xaml.cs:545-548 | Drawing gives every visible character a position for every trait, keeps every existing position, and skips hidden characters. |
| WpfList.RedrawDefaultsIdempotent | MainWindow.xaml.cs:545-548 | A second redraw adds nothing. |
| WpfList.DragPosition | MainWindow.xaml.cs:600-611 | A drag position is always in [0, 1]. Within the line it is the left edge over the free length. It is 0 or 1 beyond the ends, and 0.5 when the free length is zero. |
| WpfList.PickBubble | MainWindow.xaml.cs:579-598 | Picks the topmost unlocked bubble under the mouse, or none exactly when there is no such bubble. |
| WpfList.Drag | MainWindow.xaml.cs:605-610 | A drag writes a position in [0, 1] under the trait's name and changes no other position. |
| Colors.FromRgb | SixteenCoreCharacterMapper.Avalonia/SimpleColorPicker.axaml.cs:113 | `FromRgb` gives the opaque colour of its three components. |
| Colors.Pair | SixteenCoreCharacterMapper.Avalonia/SimpleColorPicker.axaml.cs:66 | A byte prints as two hexadecimal digits. |
| Colors.PairRoundTrip | SixteenCoreCharacterMapper.Avalonia/SimpleColorPicker.axaml.cs:66 | Two printed digits read back as the byte. |
| Colors.HexText | SixteenCoreCharacterMapper.Avalonia/SimpleColorPicker.axaml.cs:66 | The picker's text box shows six hexadecimal digits. |
| Colors.AvaloniaText | SixteenCoreCharacterMapper.Avalonia/EditCharacterDialog.axaml.cs:210 | Avalonia prints a colour without a known name as "#" and eight digits. |
| Colors.ColorText | SixteenCoreCharacterMapper.Avalonia/EditCharacterDialog.axaml.cs:210 | Avalonia prints a colour by its known name when it has one, otherwise in the hexadecimal form. |
| Colors.TryParseNamed | SixteenCoreCharacterMapper.Avalonia/EditCharacterDialog.axaml.cs:48 | A hexadecimal form parses as such. Otherwise a known name gives its colour, and anything else fails. |
| Colors.TryParseNamedOnHex | SixteenCoreCharacterMapper.Avalonia/EditCharacterDialog.axaml.cs:150 | For text starting with "#", such as the preset hex codes, the named lookup changes nothing. |
| Colors.ColorTextRoundTrip | SixteenCoreCharacterMapper.Avalonia/EditCharacterDialog.axaml.cs:45-52 | A colour stored by the dialog, by name or in hexadecimal, reads back as itself when the dialog reopens. |
| Colors.WpfText | ViewModels/EditCharacterViewModel.cs:134 | WPF prints a colour as "#" and eight digits. |
| Colors.ParseDigits | SixteenCoreCharacterMapper.Avalonia/SimpleColorPicker.axaml.cs:94 | Six or eight hexadecimal digits parse, and only those. Six digits give an opaque colour. |
| Colors.TryParse | SixteenCoreCharacterMapper.Avalonia/SimpleColorPicker.axaml.cs:92-99 | Only "#" followed by 3, 4, 6 or 8 digits parses. The three- and six-digit forms are opaque. |
| Colors.HexTextRoundTrip | SixteenCoreCharacterMapper.Avalonia/SimpleColorPicker.axaml.cs:66-99 | The picker's text with a "#" reads back as the shown colour made opaque. |
| Colors.AvaloniaTextRoundTrip | SixteenCoreCharacterMapper.Avalonia/EditCharacterDialog.axaml.cs:45-52 | The hexadecimal form of a colour reads back as the colour. |
| Colors.WpfTextRoundTrip | ViewModels/EditCharacterViewModel.cs:115-123 | A colour stored by the WPF editor reads back as itself. |
| Colors.ShortFormExpands | SixteenCoreCharacterMapper.Avalonia/SimpleColorPicker.axaml.cs:92 | "#RGB" reads as "#RRGGBB". |
| ColorPicker.SetColor | SixteenCoreCharacterMapper.Avalonia/SimpleColorPicker.axaml.cs:47-71 | Assigning the current colour changes nothing. A new colour is shown on the sliders and in the text box. |
| ColorPicker.Initial | SixteenCoreCharacterMapper.Avalonia/SimpleColorPicker.axaml.cs:12-13 | A new picker holds black and shows it. |
| ColorPicker.SetColorShows | SixteenCoreCharacterMapper.Avalonia/SimpleColorPicker.axaml.cs:47-71 | A shown picker stays shown whatever colour is assigned. |
| ColorPicker.HexInput | SixteenCoreCharacterMapper.Avalonia/SimpleColorPicker.axaml.cs:89-90 | The text is trimmed and starts with "#" afterwards. |
| ColorPicker.UpdateFromHex | SixteenCoreCharacterMapper.Avalonia/SimpleColorPicker.axaml.cs:82-101 | A blank box does nothing. A four- or seven-character text that parses selects its colour. A change always selects a new opaque colour. |
| ColorPicker.Typed | SixteenCoreCharacterMapper.Avalonia/SimpleColorPicker.axaml.cs:73-80 | Typed text stays in the box. Six typed characters are read at once. |
| ColorPicker.TypingSixDigitsSelects | SixteenCoreCharacterMapper.Avalonia/SimpleColorPicker.axaml.cs:73-99 | Typing a colour's six digits selects that colour, opaque. |
| ColorPicker.ShownTextIsStable | SixteenCoreCharacterMapper.Avalonia/SimpleColorPicker.axaml.cs:82-101 | Re-reading the text of a shown opaque colour changes nothing. |
| ColorPicker.Truncate | SixteenCoreCharacterMapper.Avalonia/SimpleColorPicker.axaml.cs:113 | The byte cast keeps the whole part of a slider value. |
| ColorPicker.SliderMoved | SixteenCoreCharacterMapper.Avalonia/SimpleColorPicker.axaml.cs:103-116 | Moving a slider selects the opaque colour of the three truncated slider values. |
| ColorPicker.WholeSlidersKeepColor | SixteenCoreCharacterMapper.Avalonia/SimpleColorPicker.axaml.cs:103-116 | Sliders showing a colour give back that colour. |
| EditCharacter.FirstWithHex | SixteenCoreCharacterMapper.Core/ViewModels/EditCharacterViewModel.cs:64-68 | Finds the first preset with the hex, or none exactly when no preset has it. |
| EditCharacter.ButtonText | SixteenCoreCharacterMapper.Core/ViewModels/EditCharacterViewModel.cs:76-81 | The button offers editing exactly when answers were saved, and taking the questionnaire otherwise. |
| EditCharacter.Open | SixteenCoreCharacterMapper.Core/ViewModels/EditCharacterViewModel.cs:35-74 | A coloured character is kept, with its first matching preset selected or a "Custom" item. An uncoloured one gets the first preset's colour. |
| EditCharacter.UpdateQuestionnaireStatus | SixteenCoreCharacterMapper.Core/ViewModels/EditCharacterViewModel.cs:76-81 | The button text follows the current answers, and nothing else changes. |
| EditCharacter.SetName | SixteenCoreCharacterMapper.Core/ViewModels/EditCharacterViewModel.cs:20-31 | The name is stored, with a notification exactly when it changed. |
| EditCharacter.SelectColor | SixteenCoreCharacterMapper.Core/ViewModels/EditCharacterViewModel.cs:83-91 | A selected item becomes the selection and its hex the character's colour. No item changes nothing. |
| EditCharacter.SetFlag | SixteenCoreCharacterMapper.Core/ViewModels/EditCharacterViewModel.cs:93-130 | Setting a flag to true selects its size and clears the others. Setting false does nothing. |
| EditCharacter.ExactlyOneFlag | SixteenCoreCharacterMapper.Core/ViewModels/EditCharacterViewModel.cs:93-130 | Exactly one size flag reads true. |
| WpfEditCharacter.Open | ViewModels/EditCharacterViewModel.cs:87-127 | A coloured character is kept and its colour, in hexadecimal or a known name, selected. An unparsable colour fails. An uncoloured one gets the first preset. The selection always matches the stored colour. |
| WpfEditCharacter.OpenReadsNames | ViewModels/EditCharacterViewModel.cs:115-118 | A known colour name, as the other edition stores it, opens with that colour selected. |
| WpfEditCharacter.SetName | ViewModels/EditCharacterViewModel.cs:19-30 | The name is stored, with a notification exactly when it changed. |
| WpfEditCharacter.SelectColor | ViewModels/EditCharacterViewModel.cs:129-136 | A brush becomes the selection, written as WPF prints it. The stored colour keeps matching the selection. |
| WpfEditCharacter.SetFlag | ViewModels/EditCharacterViewModel.cs:42-85 | Setting a flag to true selects its size. Setting false does nothing. |
| WpfEditCharacter.ExactlyOneFlag | ViewModels/EditCharacterViewModel.cs:42-85 | Exactly one size flag reads true. |
| EditDialog.RadioFor | SixteenCoreCharacterMapper.Avalonia/EditCharacterDialog.axaml.cs:58-69 | The radio button chosen for a size stands for that size. |
| EditDialog.OpenNew | SixteenCoreCharacterMapper.Avalonia/EditCharacterDialog.axaml.cs:25-35 | A new dialog edits a new character, with Main checked and the picker black. |
| EditDialog.OpenExisting | SixteenCoreCharacterMapper.Avalonia/EditCharacterDialog.axaml.cs:37-70 | The radio of the character's size is checked. The picker shows the colour the editor holds when it parses, black otherwise. A character without a colour therefore opens with the default red the editor gives it. |
| EditDialog.CheckRadio | SixteenCoreCharacterMapper.Avalonia/EditCharacterDialog.axaml.cs:217-228 | Checking a radio button changes only which radio is checked. |
| EditDialog.PresetClicked | SixteenCoreCharacterMapper.Avalonia/EditCharacterDialog.axaml.cs:145-155 | A preset that parses, as hexadecimal or as a known name, is shown in the picker. Otherwise nothing changes. |
| EditDialog.RunQuestionnaire | SixteenCoreCharacterMapper.Avalonia/EditCharacterDialog.axaml.cs:157-201 | Declining the warning or cancelling changes nothing. Returned scores overwrite only their own keys, and answers and exclusions replace the stored ones. |
| EditDialog.MergeKeepsRange | SixteenCoreCharacterMapper.Avalonia/EditCharacterDialog.axaml.cs:183-189 | Merging scores in [0, 1] keeps every position in [0, 1]. |
| EditDialog.SubmittedScoresInRange | SixteenCoreCharacterMapper.Avalonia/EditCharacterDialog.axaml.cs:181-189 | A submitted questionnaire's scores are valid positions. |
| EditDialog.ReopenKeepsExclusions | SixteenCoreCharacterMapper.Avalonia/EditCharacterDialog.axaml.cs:175-200 | With the corrected submission, reopening the questionnaire for the edited character starts with exactly the pages excluded last time left out. |
| EditDialog.Ok | SixteenCoreCharacterMapper.Avalonia/EditCharacterDialog.axaml.cs:203-231 | OK writes the picker's colour as Avalonia prints it, by name when it has one. It writes the checked radio's size, and keeps the size when no radio is checked. |
| EditDialog.Close | SixteenCoreCharacterMapper.Avalonia/EditCharacterDialog.axaml.cs:203-236 | The dialog returns the character exactly on OK. |
| EditDialog.OkUntouchedIsIdentity | SixteenCoreCharacterMapper.Avalonia/EditCharacterDialog.axaml.cs:37-70 | Opening a character whose colour is in Avalonia's printed form and pressing OK at once returns it unchanged. |
| EditDialog.OkNewIsBlackDefault | SixteenCoreCharacterMapper.Avalonia/EditCharacterDialog.axaml.cs:25-35 | A new character confirmed at once is the default character, but black ("Black" where the toolkit names it). The stored text reads back as black. |
| EditDialog.EditStoresDialogResult | SixteenCoreCharacterMapper.Core/ViewModels/MainWindowViewModel.cs:295-306 | Editing the selected character with the dialog and pressing OK puts the dialog's result in its place and marks the project dirty. |
| EditDialog.EditUntouchedKeepsProject | SixteenCoreCharacterMapper.Core/ViewModels/MainWindowViewModel.cs:295-306 | Editing the selected character and pressing OK at once keeps the project, when its colour is in Avalonia's printed form. |
| ExportSelection.Open | SixteenCoreCharacterMapper.Avalonia/ExportSelectionWindow.axaml.cs:32-44 | The window lists every character in order, all ticked. |
| ExportSelection.SetSelected | SixteenCoreCharacterMapper.Avalonia/ExportSelectionWindow.axaml.cs:12-22 | Ticking a box changes only that item. |
| ExportSelection.CategorySize | SixteenCoreCharacterMapper.Avalonia/ExportSelectionWindow.axaml.cs:90-107 | Index 1 means Supporting and index 2 means Background; every other index means Main. |
| ExportSelection.Export | SixteenCoreCharacterMapper.Avalonia/ExportSelectionWindow.axaml.cs:79-114 | Every exported character is a listed character that passes the mode's filter. |
| ExportSelection.Close | SixteenCoreCharacterMapper.Avalonia/ExportSelectionWindow.axaml.cs:74-114 | The window returns a list exactly on Export, and nothing on Cancel. |
| ExportSelection.ExportKeepsOrder | SixteenCoreCharacterMapper.Avalonia/ExportSelectionWindow.axaml.cs:79-114 | The export holds exactly the kept characters, at strictly increasing positions, in list order. |
| ExportSelection.ExportIsSubsequence | SixteenCoreCharacterMapper.Avalonia/ExportSelectionWindow.axaml.cs:79-114 | Every export is a subsequence of the characters. |
| ExportSelection.FreshWindowExportsAll | SixteenCoreCharacterMapper.Avalonia/ExportSelectionWindow.axaml.cs:34 | An untouched window exports every character, both with "all" and with "selected". |
| ExportSelection.UnknownCategoryIsMain | SixteenCoreCharacterMapper.Avalonia/ExportSelectionWindow.axaml.cs:90-107 | An index outside the combo box's entries exports the main characters. |
| ExportSelection.CategoriesPartition | SixteenCoreCharacterMapper.Avalonia/ExportSelectionWindow.axaml.cs:90-107 | The three categories together export every character exactly once. |
| Converters.LockTooltip | SixteenCoreCharacterMapper.Avalonia/Converters.cs:14 | "Unlock Character" exactly for a boxed true. |
| Converters.VisibilityTooltip | SixteenCoreCharacterMapper.Avalonia/Converters.cs:20 | "Hide Character" exactly for a boxed true. |
| Converters.GroupHeader | SixteenCoreCharacterMapper.Avalonia/Converters.cs:26 | Anything that is not a named size is headed "Other". |
| Converters.HeadersOfSizes | SixteenCoreCharacterMapper.Avalonia/Converters.cs:26 | The three sizes are headed Main, Supporting and Background. |
| Converters.Opacity | SixteenCoreCharacterMapper.Avalonia/Converters.cs:30-41 | Opacity is 1 exactly for a boxed true and 0 otherwise. |
| Converters.DimOpacity | SixteenCoreCharacterMapper.Avalonia/Converters.cs:43-54 | Opacity is 1 exactly for a boxed true and one half otherwise. |
| Converters.DimNeverHides | SixteenCoreCharacterMapper.Avalonia/Converters.cs:30-54 | A dimmed element is never invisible. |
| Converters.Weight | SixteenCoreCharacterMapper.Avalonia/Converters.cs:56-67 | Bold exactly for a boxed true. |
| Converters.HexToBrush | SixteenCoreCharacterMapper.Avalonia/Converters.cs:69-91 | A non-empty string that parses, in hexadecimal or as a known colour name, gives its colour's brush. Anything else gives the transparent brush. |
| Converters.HexToBrushOfPrinted | SixteenCoreCharacterMapper.Avalonia/Converters.cs:69-91 | A character colour stored by the dialog, by name or in hexadecimal, is painted as itself. |
| Converters.ColorMatch | SixteenCoreCharacterMapper.Avalonia/Converters.cs:93-106 | A match needs exactly a preset and a colour, with the preset's hex parsing to that colour. |
| Converters.ColorMatchIsUnique | SixteenCoreCharacterMapper.Avalonia/Converters.cs:93-106 | A preset matches at most one colour. |
| Converters.IconKind | SixteenCoreCharacterMapper.Avalonia/Converters.cs:114 | Only "Lock" and "Visibility" name an icon kind. |
| Converters.StatusIcon | SixteenCoreCharacterMapper.Avalonia/Converters.cs:108-154 | Too few values or an unknown kind give nothing. A cached icon is reused. A loaded icon is cached. A failed load caches nothing. |
| Converters.StatusIconCached | SixteenCoreCharacterMapper.Avalonia/Converters.cs:126-137 | An icon once served is served again from the cache, whether or not loading would work. |
| Converters.StatusGeometry | SixteenCoreCharacterMapper.Avalonia/Converters.cs:156-181 | There is a shape exactly for a boolean status and a known kind. |
| Converters.GeometryAgreesWithIcon | SixteenCoreCharacterMapper.Avalonia/Converters.cs:108-181 | The shape and the icon image agree for every status. |
| Converters.IconBrush | SixteenCoreCharacterMapper.Avalonia/Converters.cs:183-196 | Opaque light grey exactly in dark mode, mid grey otherwise. |
| WpfConverters.LockTooltip | Converters.cs:9-13 | "Unlock Character" exactly for true. |
| WpfConverters.VisibilityTooltip | Converters.cs:15-19 | "Hide Character" exactly for true. |
| WpfConverters.TooltipsAgree | Converters.cs:9-19 | Both editions show the same tooltips. |
| WpfConverters.GroupHeader | Converters.cs:21-25 | Anything that is not a named size is headed "Other". |
| WpfConverters.HeadersAgree | Converters.cs:21-25 | Both editions head their groups alike for every bound value. |
| WpfConverters.ToHidden | Converters.cs:27-38 | Visible exactly for true, and never collapsed. |
| WpfConverters.ColorMatch | Converters.cs:40-55 | A match needs at least two values, both colours and equal. |
| WpfConverters.ColorMatchIsEquality | Converters.cs:40-55 | A colour matches itself, matching is symmetric, and extra values are ignored. |
| WpfConverters.ConvertBack | Converters.cs:12 | Converting back never yields a source value. |
| WpfConverters.ConvertBackForgets | Converters.cs:12 | A tooltip converted back does not recover its bool. |
| Tutorial.Next | SixteenCoreCharacterMapper.Avalonia/MainWindow.Tutorial.cs:22-26 | Every stage but Final has a successor, one step on in the enumeration. |
| Tutorial.OrdIsInjective | SixteenCoreCharacterMapper.Avalonia/MainWindow.Tutorial.cs:22-26 | The stages are numbered without gaps or repeats, Final last. |
| Tutorial.Stop | SixteenCoreCharacterMapper.Avalonia/MainWindow.Tutorial.cs:30-52 | Stopping makes the tutorial inactive at None and keeps the click flags. |
| Tutorial.Proceed | SixteenCoreCharacterMapper.Avalonia/MainWindow.Tutorial.cs:68-86 | One stage on, when active. From Final, or into DragBubble without characters, it stops. The lock and show/hide stages start with their flags cleared. |
| Tutorial.Start | SixteenCoreCharacterMapper.Avalonia/MainWindow.Tutorial.cs:29 | Starting lands on ProjectName and keeps the click flags. |
| Tutorial.Mark | SixteenCoreCharacterMapper.Avalonia/MainWindow.Tutorial.cs:361-386 | A click sets only its own flag. |
| Tutorial.Step | SixteenCoreCharacterMapper.Avalonia/MainWindow.Tutorial.cs:28-386 | Each event acts only in its own stage of an active tutorial. The deferred placement either changes nothing or stops the tutorial. |
| Tutorial.StepKeepsValid | SixteenCoreCharacterMapper.Avalonia/MainWindow.Tutorial.cs:28-86 | Every event keeps "active exactly when off None". |
| Tutorial.RunKeepsValid | SixteenCoreCharacterMapper.Avalonia/MainWindow.Tutorial.cs:28-86 | Any run of events keeps "active exactly when off None". |
| Tutorial.StepIgnoresCharacterCount | SixteenCoreCharacterMapper.Avalonia/MainWindow.Tutorial.cs:116 | No event reaches the no-characters stop, because DragBubble is entered only after a character was added. |
| Tutorial.TutorialClickToggles | SixteenCoreCharacterMapper.Avalonia/MainWindow.Tutorial.cs:28 | The menu item starts an inactive tutorial and stops an active one. |
| Tutorial.TutorialButtonActions | SixteenCoreCharacterMapper.Avalonia/MainWindow.Tutorial.cs:301 | The pop-up button goes on from the export stages and finishes at Final. |
| Tutorial.Clicks | SixteenCoreCharacterMapper.Avalonia/MainWindow.Tutorial.cs:361-386 | A sequence of clicks on one icon, one per state. |
| Tutorial.ClicksElsewhereIgnored | SixteenCoreCharacterMapper.Avalonia/MainWindow.Tutorial.cs:361-386 | Clicks outside their icon's stage change nothing. |
| Tutorial.HasKindCons | SixteenCoreCharacterMapper.Avalonia/MainWindow.Tutorial.cs:361-386 | A click run has a kind when its head or its tail has it. |
| Tutorial.OneClick | SixteenCoreCharacterMapper.Avalonia/MainWindow.Tutorial.cs:361-386 | One click in its stage is recorded. The tutorial moves on as soon as both kinds are seen. |
| Tutorial.IconStageNeedsBoth | SixteenCoreCharacterMapper.Avalonia/MainWindow.Tutorial.cs:361-386 | The lock (show/hide) stage moves on exactly when both a lock and an unlock (a hide and a show) were clicked. |
| Tutorial.LockStageAfterEntry | SixteenCoreCharacterMapper.Avalonia/MainWindow.Tutorial.cs:135 | Arriving at the lock stage clears its flags, so it needs both kinds of click afresh. |
| WpfTutorial.Next | MainWindow.xaml.cs:46-50 | Every WPF stage but Final has a successor, one step on. |
| WpfTutorial.OrdIsInjective | MainWindow.xaml.cs:46-50 | The stages are numbered without gaps or repeats. |
| WpfTutorial.Stop | MainWindow.xaml.cs:679 | Stopping makes the tutorial inactive at None and keeps the click flags. |
| WpfTutorial.Proceed | MainWindow.xaml.cs:680 | One stage on, when active. From Final, or into DragBubble without characters, it stops. |
| WpfTutorial.Start | MainWindow.xaml.cs:678 | Starting lands on ProjectName. |
| WpfTutorial.SameClickKind | MainWindow.xaml.cs:641-665 | Reading the flag after the toggle classifies a click as the other window's reading before it does. |
| WpfTutorial.Mark | MainWindow.xaml.cs:641-665 | A click sets only its own flag. |
| WpfTutorial.Clear | MainWindow.xaml.cs:689-695 | The deferred set-up clears only its own stage's flags. |
| WpfTutorial.Step | MainWindow.xaml.cs:106-699 | Each event acts only in its own stage. The placeholder text does not count as a title. The deferred set-up clears flags and stops when the button is missing. |
| WpfTutorial.StepKeepsValid | MainWindow.xaml.cs:106-699 | Every event keeps "active exactly when off None". |
| WpfTutorial.RunKeepsValid | MainWindow.xaml.cs:106-699 | Any run of events keeps "active exactly when off None". |
| WpfTutorial.StepIgnoresCharacterCount | MainWindow.xaml.cs:681-698 | The no-characters stop is never reached by an event. |
| WpfTutorial.TutorialClickToggles | MainWindow.xaml.cs:677 | The menu item starts an inactive tutorial and stops an active one. |
| WpfTutorial.TutorialButtonActions | MainWindow.xaml.cs:699 | The pop-up button goes on from ExportImage and finishes at Final. |
| WpfTutorial.PlaceholderDoesNotProceed | MainWindow.xaml.cs:139-159 | The placeholder text never advances the project-name stage. |
| WpfTutorial.Clicks | MainWindow.xaml.cs:641-665 | A sequence of clicks on one icon, one per state. |
| WpfTutorial.HasKindCons | MainWindow.xaml.cs:641-665 | A click run has a kind when its head or its tail has it. |
| WpfTutorial.ClicksElsewhereIgnored | MainWindow.xaml.cs:641-665 | Clicks outside their icon's stage change nothing. |
| WpfTutorial.OneClick | MainWindow.xaml.cs:641-665 | One click in its stage is recorded. The tutorial moves on as soon as both kinds are seen. |
| WpfTutorial.IconStageNeedsBoth | MainWindow.xaml.cs:641-665 | The icon stage moves on exactly when both kinds of click were seen since the flags were last cleared. |
| WpfTutorial.LockStageAfterEntry | MainWindow.xaml.cs:689-695 | After the deferred set-up of the lock stage, it moves on exactly when both a lock and an unlock are clicked. |
| UpdateService.NewerIsStrictTotalOrder | SixteenCoreCharacterMapper.Core/Services/UpdateService.cs:48-54 | Version comparison is irreflexive and transitive, and total on distinct versions. |
| UpdateService.ResolvePlatformUrl | SixteenCoreCharacterMapper.Core/Services/UpdateService.cs:65-97 | Only the download address changes:<br>- Windows prefers its own address over the legacy one;<br>- macOS takes the Arm or Intel address by architecture;<br>- Linux takes its own address;<br>- anything else gets none. |
| UpdateService.ResolveIsIdempotent | SixteenCoreCharacterMapper.Core/Services/UpdateService.cs:65-97 | Resolving twice is resolving once. |
| UpdateService.LegacyUrlOnlyOnWindows | SixteenCoreCharacterMapper.Core/Services/UpdateService.cs:65-97 | The legacy address reaches only Windows clients. |
| UpdateService.CheckForUpdate | SixteenCoreCharacterMapper.Core/Services/UpdateService.cs:19-63 | An update is offered exactly when all of these hold:<br>- the document and its version are present;<br>- the platform has an address;<br>- the trimmed version parses to something newer than the running one.<br>The offered description has the resolved address. |
| UpdateService.NoUpdateOnUnknownPlatform | SixteenCoreCharacterMapper.Core/Services/UpdateService.cs:92-96 | An unknown platform is never offered an update. |
| UpdateService.OfferedToOlderVersions | SixteenCoreCharacterMapper.Core/Services/UpdateService.cs:48-54 | An update offered to one version is offered to every older one. |
| UpdateService.NeverOfferedOwnVersion | SixteenCoreCharacterMapper.Core/Services/UpdateService.cs:48-54 | A version is never offered to itself. |

## Left out

### Outside the model

- **File, JSON and network I/O**:
  - project loading and saving, reading the questions file, the update fetch and its
    User-Agent;
  - the outcomes of these are parameters: whether a write succeeds, the questions read, the
    fetched document.
- **Localization, settings and image export**:
  - `LocalizationService` and `SettingsService`;
  - image and layout export;
  - the about, help and message windows.
- **UI-framework details**:
  - rendering and theming, pop-up placement and highlight visuals;
  - the dispatcher's deferred callbacks, which appear as explicit events (`PopupPlaced`,
    `EntryLoaded`);
  - `ShowTutorialStage` returning early when a control is missing;
  - how the list controls themselves react when a selected item leaves their source; the
    view models never clear the selection, and neither does the model.
- **Floating point**: IEEE arithmetic is not modelled; scores and positions are exact
  reals. The 0/0 ratio of a zero-length drag line, which the code clamps as a non-number,
  is written out as 0.5.
- **Colour parsing**:
  - `Color.TryParse` and `Brush.Parse` are modelled for "#" and hexadecimal digits;
  - known colour names are modelled, with the toolkit's name table as a parameter, where
    names can reach the code: the Avalonia character dialog, the brush converter and the
    WPF editor's constructor;
  - the picker's text box always puts "#" in front, and the presets are hexadecimal, so
    those are read as hexadecimal only;
  - white space, case-insensitive name matching and other brush syntaxes are left out;
  - "#RGB" is assumed to expand each digit twice.
- **Converter reverse directions**: the Avalonia converters' `ConvertBack` throws, and so
  does the WPF `ColorToBooleanConverter.ConvertBack`; these are not modelled.
- **Trait catalog**: `TraitDefinitions.All` builds a fresh list on every access, which is
  not observable in a value model.
- **Unmodelled fields**: `Character` and `Project` fields that no modelled operation reads
  are left out.
- **Null notes**: with a null notes map the notes export returns before asking for a file;
  this appears as `None`.

### Deliberately weaker contracts

- WpfConverters.LockTooltip: requires a boolean value (`v.BoolValue?`), standing for the
  `(bool)value` cast, which throws on any other value; the exception is not modelled.
- WpfConverters.VisibilityTooltip: requires a boolean value for the same reason.
- ColorPicker.Initial: assumes the XAML shows black at first, because the registered default
  raises no property change and so never writes the sliders and text box.
- Naming.FileName: both '/' and '\\' count as directory separators, as `Path.GetFileName`
  does on Windows; on Linux and macOS only '/' separates, which is not modelled.
- Naming.Title: the exact text is not stated beyond its prefix and the star, because
  `Path.GetFileName` is modelled for '/' and '\\' separators only.

## Findings

| source | as written | input that shows it | evidently intended | confidence | as-written member | corrected member |
|---|---|---|---|---|---|---|
| SixteenCoreCharacterMapper.Core/ViewModels/QuestionnaireViewModel.cs:185-188 | Exclusions are saved as page titles (the localized trait name, line 97). Loading compares the saved list with trait ids (line 112). | A question of trait "EmotionalStability" with localized name "Emotional Stability": the page is excluded, submitted and reopened. | Exclusions saved by trait id, so an excluded page stays excluded. | not executed | Questionnaire.ExclusionLostOnReload | Questionnaire.SubmitById, Questionnaire.ExclusionIdsRoundTrip |
| SixteenCoreCharacterMapper.Core/ViewModels/MainWindowViewModel.cs:364-375 | After Yes the confirmation saves and returns true whatever the save did. | A dirty project without a file: Yes, then Cancel in the save-as dialog. New Project then discards the unsaved work. | Go on only when the save cleared the dirty flag, as the WPF edition does. | not executed | MainViewModel.ConfirmAsWritten, MainViewModel.ConfirmAsWrittenIgnoresFailedSave | MainViewModel.Confirm, MainViewModel.ConfirmAgreesWhenSaveSucceeds |

The operations themselves are modelled as written. Each affected operation also has a
variant built on the corrected member:

- `Questionnaire.NextById` and `Questionnaire.SkipRestById` submit through `SubmitById`, and
  `EditDialog.ReopenKeepsExclusions` reopens after that submission;
- `MainViewModel.NewProjectCommandIntended` and `MainViewModel.HandleExitIntended` go
  through `Confirm`.
