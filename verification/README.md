# libjingle: a verified model

A Dafny model of the parts of libjingle whose correctness is least obvious from
reading one function at a time, with proofs about them. `dafny verify
dfyconfig.toml` checks all of it. Code that updates state is modelled by classes
and methods, each proved against a function or predicate that says what it is
for; the laws are lemmas about those functions and invariants over whole runs.

- **XML** (`Xml*.dfy`). The printer invents namespace prefixes on a scoped stack;
  the parser and the builder resolve raw names against the same kind of stack
  (Namespaces in XML 1.0, sections 6.1 and 6.2). `XmlnsBindings`, `XmlPrint` and
  `XmlParse` say what the three do; `XmlnsStack`, `XmlPrinter`, `XmlParser` and
  `XmlBuilder` are the code; `XmlRoundTrip` and `XmlFixpoint` prove that printing
  and parsing are inverse, by a simulation in which both stacks are equal at every
  tag, and that printing what was parsed emits the same tokens again. The law does
  not hold for all trees; the exact condition, which a caller can check, is
  `Expressible`. `XmlScope` states the scoping rules themselves, of raw attributes,
  positions and runs. `XmlEscape` has the character level, `XmlElement` and `XmlCopy`
  the mutable elements and their deep copy, `XmlChildList` the linked list of
  children.
- **Blocking Send** (`Send*.dfy`, `WakeFlag.dfy`). Threads send to each other,
  wait, and serve each other's messages while they wait. The state machine has one
  atomic step for each access to shared state; runs are arbitrary interleavings of
  any number of threads, whose handlers call Send, Post, Clear and Quit at will. A
  thread that was told to quit leaves its loop, and a Send whose message comes after
  the last look at the list waits for ever; that this is the only way to get stuck
  is stated exactly. `SendOrigins` traces what
  is posted, handled and cleared back to the calls of user code, and says which step
  wakes whom. `WakeFlag` shows that the dispatchers of the socket
  server are the wake-up flags of these runs.
- **Tasks** (`Task*.dfy`). A tree of cooperative tasks with deferred abort, a
  runner that steps until all are blocked, and a cached next deadline. The cache
  can go stale in one case, a task can be deleted twice if it was started twice,
  and a task made under a finished parent outlives the runner's abort; each is
  stated exactly.
- **Codecs** (`Base64.dfy`, `Base64Flags.dfy`, `TextCodec.dfy`, `HtmlCodec.dfy`,
  `StringEncode.dfy`, `Spelling.dfy`).
  RFC 4648 (sections 3.5 and 4), the five text encodings, bounded buffers, decoding
  in place, and shortest-form UTF-8 (section 3 of RFC 3629). `Spelling` ties the
  tables to their literal characters. Reading base64 through white space fails on a
  space behind whole quanta when padding is demanded; `Base64Flags` has the exact law.
- **Message queue** (`MessageQueue.dfy`, `DelayHeap.dfy`, `TimeUtils.dfy`). A peek
  slot, a FIFO and a heap of delayed messages under a 32-bit clock that wraps.
- **Worker objects** (`SignalThread.dfy`). A reference-counted life cycle, the call
  that breaks it and the call that hangs.
- **Streams** (`FifoBuffer.dfy`, `FifoRuns.dfy`, `Flow.dfy`). A ring buffer that
  refines a bounded sequence, whole runs of it with the events it posts, and a
  resumable copy loop.
- **Chatrooms** (`Chatroom.dfy`). A transition table and a versioned member map
  (XEP-0045, sections 7.2 and 7.14).

Where the code and its comments differ the model follows the code: the comment
on `URL_UNSAFE` counts the character 33 among the unsafe ones and the table does
not (talk/base/stringencode.cc:145-158), and `xml_decode` may write its zero one
place behind the buffer, exactly when `Fills` holds. A condition that the code does
not check but asserts is a precondition here; everything else that can come in has
its error path.

## Model

| member | source | states |
|---|---|---|
| XmlnsBindings.InnermostBinds | talk/xmllite/xmlnsstack.cc:73-78 | an inner binding of a prefix shadows every outer one, for every stack and prefix |
| XmlnsBindings.UnboundExactlyWhen | talk/xmllite/xmlnsstack.cc:80-83 | a prefix means nothing exactly when no entry has it; the empty one then stands for no namespace |
| XmlnsBindings.ReservedMeans | talk/xmllite/xmlnsstack.cc:61-71 | what the reserved prefixes mean, whatever is bound |
| XmlnsBindings.ChosenPrefix | talk/xmllite/xmlnsstack.cc:92-110 | which prefix is chosen for a namespace: a reserved one, none where none is needed, else that of the innermost entry that can be used, and none exactly when no entry can |
| XmlnsBindings.ScanSound | talk/xmllite/xmlnsstack.cc:92-110 | a prefix found by the search is bound to the namespace, not shadowed by an inner binding, not the default one when an attribute is named, and that of the innermost such entry |
| XmlnsBindings.ScanComplete | talk/xmllite/xmlnsstack.cc:92-110 | the search finds a prefix whenever some binding on the stack still serves the namespace |
| XmlnsBindings.SuggestPrefix | talk/xmllite/xmlnsstack.cc:145-170 | the suggested base is a non-empty lower-case word that does not begin with "xml", for every namespace |
| XmlnsBindings.SuggestsLastWord | talk/xmllite/xmlnsstack.cc:145-170 | which base that is: the last word before a short extension, cut to three letters when longer than four, or "ns" |
| XmlnsBindings.LettersAre | talk/xmllite/xmlnsstack.cc:130-143 | letters are the fifty-two of ASCII, and each capital becomes its own small letter |
| XmlnsBindings.DecimalInverse | talk/xmllite/xmlnsstack.cc:177-186 | the number put behind a base reads back, which makes numbering injective |
| XmlnsBindings.DecimalSpelled | talk/xmllite/xmlnsstack.cc:177-186 | the number is its digits, the last one last |
| XmlnsBindings.CandidateSpelled | talk/xmllite/xmlnsstack.cc:177-186 | the names tried are the base, then the base with 2, 3, 4 and so on behind it |
| XmlnsBindings.CandidateInjective | talk/xmllite/xmlnsstack.cc:177-186 | no two names tried for one namespace are the same |
| XmlnsBindings.CandidatePlain | talk/xmllite/xmlnsstack.cc:177-186 | every name tried is non-empty, without a colon, and not of the reserved kind |
| XmlnsBindings.SearchShrinks | talk/xmllite/xmlnsstack.cc:177-186 | pigeonhole: a rejected name uses up one prefix of the stack that no earlier one did, so the search ends |
| XmlnsBindings.FirstFree | talk/xmllite/xmlnsstack.cc:177-186 | what the search ends with is unbound, non-empty and not reserved |
| XmlnsBindings.FreeIsFirst | talk/xmllite/xmlnsstack.cc:177-186 | ... and every candidate before it was bound |
| XmlnsBindings.InventedName | talk/xmllite/xmlnsstack.cc:172-188 | which prefix is invented: of the suggested base and its numbered forms the first that no entry has, and none exactly when the namespace can be written already |
| XmlnsBindings.AddKeepsResolutions | talk/xmllite/xmlnsstack.cc:120-123 | binding an unbound prefix changes no earlier resolution |
| XmlnsBindings.AddKeepsServed | talk/xmllite/xmlnsstack.cc:120-123 | ... and takes no namespace its prefix away |
| XmlnsBindings.NewPrefixServes | talk/xmllite/xmlnsstack.cc:172-188 | an invented prefix is fresh, proper, resolves to its namespace, makes PrefixForNs succeed for it, and leaves all resolutions as they were |
| XmlnsBindings.PrefixResolvesBack | talk/xmllite/xmlnsstack.cc:92-110 | the prefix chosen for a namespace resolves back to it; only the reserved namespaces get reserved prefixes |
| XmlnsBindings.FirstColonAt | talk/xmllite/xmlparser.cc:223-243 | a raw name is split exactly behind a prefix that has no colon |
| XmlnsBindings.ResolvesTo | talk/xmllite/xmlparser.cc:223-243 | a prefixed name is in the namespace of its prefix; a bare one in the default namespace if it names an element, in none if an attribute |
| XmlnsBindings.ResolveInvertsFormat | talk/xmllite/xmlparser.cc:223-243 | resolving a formatted name under the same stack gives the name back, for elements and attributes |
| XmlnsStack.ChopExtension | talk/xmllite/xmlnsstack.cc:146-149 | the loop from the back finds the length of the namespace without a short extension |
| XmlnsStack.LastWord | talk/xmllite/xmlnsstack.cc:150-163 | the two loops find the last run of letters |
| XmlnsStack.SuggestPrefix | talk/xmllite/xmlnsstack.cc:145-170 | the code computes the base whose properties are proved of XmlnsBindings.SuggestPrefix |
| XmlnsStack.XmlnsStack.constructor | talk/xmllite/xmlnsstack.cc:39-42 | a new stack has no binding and no frame |
| XmlnsStack.XmlnsStack.PushFrame | talk/xmllite/xmlnsstack.cc:46-48 | a frame remembers how many bindings there are; none changes |
| XmlnsStack.XmlnsStack.PopFrame | talk/xmllite/xmlnsstack.cc:50-57 | the bindings are again those of the matching PushFrame, and one frame less |
| XmlnsStack.XmlnsStack.AddXmlns | talk/xmllite/xmlnsstack.cc:120-123 | one binding more, innermost |
| XmlnsStack.XmlnsStack.RemoveXmlns | talk/xmllite/xmlnsstack.cc:125-128 | the innermost binding is gone |
| XmlnsStack.XmlnsStack.Reset | talk/xmllite/xmlnsstack.cc:190-193 | no bindings and no frames |
| XmlnsStack.XmlnsStack.NsForPrefix | talk/xmllite/xmlnsstack.cc:59-84 | the walk over the flat vector gives the innermost binding, the reserved prefixes and the empty default as the specification does |
| XmlnsStack.XmlnsStack.PrefixMatchesNs | talk/xmllite/xmlnsstack.cc:86-90 | true exactly when the prefix resolves to the namespace |
| XmlnsStack.XmlnsStack.PrefixForNs | talk/xmllite/xmlnsstack.cc:92-110 | the walk gives the innermost serving prefix |
| XmlnsStack.XmlnsStack.FormatQName | talk/xmllite/xmlnsstack.cc:112-118 | the printed name of the specification |
| XmlnsStack.XmlnsStack.AddNewPrefix | talk/xmllite/xmlnsstack.cc:172-188 | the loop ends for every stack; it binds the first free candidate exactly when no prefix served the namespace |
| XmlPrint.InventKeeps | talk/xmllite/xmlprinter.cc:83-98 | inventing declarations keeps every resolution |
| XmlPrint.InventKeepsServed | talk/xmllite/xmlprinter.cc:83-98 | ... and every namespace that could be written |
| XmlPrint.InventServes | talk/xmllite/xmlprinter.cc:83-98 | afterwards each name of the start tag can be written |
| XmlPrint.InventFresh | talk/xmllite/xmlprinter.cc:83-98 | invented prefixes are proper, were unbound and differ from each other |
| XmlPrint.InventedInOrder | talk/xmllite/xmlprinter.cc:83-98 | what the element itself needs is invented before what its attributes need |
| XmlPrint.StartSpelled | talk/xmllite/xmlprinter.cc:100-119 | the attributes in their order and with their values, each under the prefix chosen for its namespace if any, then one xmlns attribute for each invented binding |
| XmlPrint.InventNothing | talk/xmllite/xmlprinter.cc:83-98 | nothing is invented where everything can be written already |
| XmlPrint.AttrsInventNoEmpty | talk/xmllite/xmlprinter.cc:92-98 | no attribute makes the printer declare the empty namespace |
| XmlPrint.InventsEmptyExactlyWhen | talk/xmllite/xmlprinter.cc:83-98 | the printer binds a prefix to the empty namespace exactly when the element is in it and a default namespace is in the way |
| XmlPrint.ScopeColonFree | talk/xmllite/xmlprinter.cc:69-98 | no prefix in scope hides a colon |
| XmlPrinter.XmlPrinter.PrintElement | talk/xmllite/xmlprinter.cc:69-144 | writes the token sequence of XmlPrint.Print and leaves the namespace stack as it found it |
| XmlPrinter.XmlPrinter.PrintChildren | talk/xmllite/xmlprinter.cc:121-141 | the children in order, each under the same stack |
| XmlPrinter.XmlPrinter.PrintChild | talk/xmllite/xmlprinter.cc:121-141 | a text, an element, or nothing for an empty text |
| XmlPrinter.XmlPrinter.AddDeclared | talk/xmllite/xmlprinter.cc:72-81 | first pass: exactly the declarations the element carries are bound |
| XmlPrinter.XmlPrinter.AddNeeded | talk/xmllite/xmlprinter.cc:83-98 | second pass: exactly the bindings that are missing are invented, element first, then attributes |
| XmlPrinter.XmlPrinter.FormatAttrs | talk/xmllite/xmlprinter.cc:103-108 | every attribute under its printed name with its own value |
| XmlPrinter.XmlPrinter.FormatDeclarations | talk/xmllite/xmlprinter.cc:110-119 | every invented binding spelled as an xmlns attribute |
| XmlPrinter.XmlPrinter.PrintStart | talk/xmllite/xmlprinter.cc:100-119 | the start tag is the name, the attributes, then the invented declarations |
| XmlEscape.FindFirstUnsafe | talk/xmllite/xmlprinter.cc:146-185 | the first character that must not be copied |
| XmlEscape.Print | talk/xmllite/xmlprinter.cc:146-185 | what is written is the text with exactly its unsafe characters replaced |
| XmlEscape.ReadInvertsEscape | talk/xmllite/xmlprinter.cc:146-185 | any value in quotes, and any body text, reads back as it was |
| XmlEscape.RawValueReadsBackExactlyWhen | talk/xmllite/xmlprinter.cc:113-117 | an invented declaration, written without escapes, reads back exactly when the namespace has no quote, less-than sign or ampersand |
| Spellings.PrinterSpelled | talk/xmllite/xmlprinter.cc:146-185 | what is written for each character, in values and in texts, in full |
| XmlParse.RunAppend | talk/xmllite/xmlparser.cc:167-187 | a document fed in pieces is a document fed at once |
| XmlParse.RunFailed | talk/xmllite/xmlparser.cc:94-119 | after an error nothing that follows changes the outcome |
| XmlParse.ChunkingIsInvisible | talk/xmllite/xmlbuilder.cc:116-123 | however a run of text is cut into callbacks, the tree is the same |
| XmlParse.DeclaredRawAppend | talk/xmllite/xmlparser.cc:94-119 | the declarations of a start tag are those of its parts, and illegal when one part is |
| XmlParse.BuildAttrsResolves | talk/xmllite/xmlbuilder.cc:51-86 | attributes that resolve to different names are accepted with exactly these names |
| XmlParse.AttrsRefusedExactlyWhen | talk/xmllite/xmlbuilder.cc:51-86 | attributes are refused exactly when one has an unbound prefix or repeats a namespaced name of an earlier one |
| XmlParse.DeclaredRawExactlyWhen | talk/xmllite/xmlparser.cc:94-119 | the declarations are refused exactly when one binds a prefix to the empty namespace |
| XmlParse.StartFailsExactlyWhen | talk/xmllite/xmlparser.cc:94-119 | a start tag fails exactly for these reasons or an unbound prefix of its own |
| XmlScopes.DeclaredOne | talk/xmllite/xmlparser.cc:85-114 | which prefix a raw attribute declares, from its spelling |
| XmlScopes.RefusedExactlyWhen | talk/xmllite/xmlparser.cc:105-110 | a tag is refused for its declarations exactly when one of them, by its spelling, binds a prefix to the empty namespace |
| XmlScopes.LastDeclarationWins | talk/xmllite/xmlparser.cc:94-119 | after the declarations of a tag a prefix means what the last attribute that declares it says |
| XmlScopes.UndeclaredKeeps | talk/xmllite/xmlparser.cc:94-119 | and what it meant before when none does |
| XmlScopes.PrefixedNameInTag | talk/xmllite/xmlparser.cc:94-119 | a name under a start tag that declares its prefix, that of the tag itself too, is in the namespace of the last such declaration |
| XmlScopes.BareNameInTag | talk/xmllite/xmlparser.cc:94-119 | a bare name under a tag that declares a default namespace is in it if it names an element, in none if an attribute |
| XmlScopes.TagOpensScope | talk/xmllite/xmlparser.cc:94-119 | what an accepted start tag does to the stack, and that its own name is resolved with its own declarations |
| XmlScopes.RunStaysAbove | talk/xmllite/xmlparser.cc:94-130 | no run inside an element touches the bindings or the frames below it |
| XmlScopes.ScopeLasts | talk/xmllite/xmlparser.cc:94-130 | over every run inside an element: a prefix means what its tag made of it until an inner tag that is still open declares it again, and the end tag, under the same raw name, gives every prefix its old meaning back |
| XmlScopes.EndsScope | talk/xmllite/xmlparser.cc:121-130 | the end tag takes off exactly what its start tag put on |
| XmlParser.XmlParser.constructor | talk/xmllite/xmlparser.cc:62-69 | a new parser is at the start of a run |
| XmlParser.XmlParser.RaiseError | talk/xmllite/xmlparser.h:93 | the first error is the one that stays |
| XmlParser.XmlParser.StartNamespaces | talk/xmllite/xmlparser.cc:94-119 | all declarations of the tag are bound in order; false exactly when a prefix is bound to the empty namespace |
| XmlParser.XmlParser.OpenScope | talk/xmllite/xmlparser.cc:94-119 | a frame and the declarations, or a syntax error |
| XmlParser.XmlParser.ExpatStartElement | talk/xmllite/xmlparser.cc:94-119 | the step of the run for a start tag, in the parser, the stack and the builder together |
| XmlParser.XmlParser.CloseScope | talk/xmllite/xmlparser.cc:121-130 | the bindings are those before the start tag |
| XmlParser.XmlParser.ExpatEndElement | talk/xmllite/xmlparser.cc:121-130 | the step of the run for an end tag |
| XmlParser.XmlParser.ExpatCharacterData | talk/xmllite/xmlparser.cc:132-140 | the step of the run for text |
| XmlParser.XmlParser.Feed | talk/xmllite/xmlparser.cc:94-140 | one event is one step; after an error nothing is looked at |
| XmlParser.XmlParser.Parse | talk/xmllite/xmlparser.cc:167-187 | true exactly when the run of all events does not fail and, at the end, the document is complete; an error is reported once and the builder then holds nothing |
| XmlParser.XmlParser.ParseXml | talk/xmllite/xmlparser.cc:193-197 | the tree of the run, or none |
| XmlParser.PrintAndParse | talk/xmllite/xmlelement.cc:485-495 | printer and parser in sequence, as code over the heap: the tree with its invented declarations, or none exactly when the tree is not expressible |
| XmlElements.XmlElement.constructor | talk/xmllite/xmlelement.cc:74-81 | a new element has a name and nothing else |
| XmlElements.XmlElement.AddAttr | talk/xmllite/xmlelement.cc:377-382 | one attribute more, last |
| XmlElements.XmlElement.AddElement | talk/xmllite/xmlelement.cc:432-440 | one child more, last |
| XmlElements.XmlElement.AddParsedText | talk/xmllite/xmlelement.cc:393-403 | text joins a text that is last, else becomes a new child; empty text does nothing |
| XmlBuilder.XmlBuilder.constructor | talk/xmllite/xmlbuilder.cc:38-42 | nothing open, nothing finished |
| XmlBuilder.XmlBuilder.BuildElement | talk/xmllite/xmlbuilder.cc:51-86 | an element exactly when all names resolve and no namespaced attribute comes twice, with exactly the resolved names |
| XmlBuilder.XmlBuilder.ResolveQName | talk/xmllite/xmlparser.cc:223-243 | the loop over the characters resolves as the specification does |
| XmlBuilder.XmlBuilder.StartElement | talk/xmllite/xmlbuilder.cc:88-106 | the built element becomes the innermost open one; a failure changes nothing |
| XmlBuilder.XmlBuilder.Push | talk/xmllite/xmlbuilder.cc:98-105 | the stack of parents stays the stack of the open elements |
| XmlBuilder.XmlBuilder.Attach | talk/xmllite/xmlbuilder.cc:92-105 | the element is the last child of the one that was current, or the root |
| XmlBuilder.XmlBuilder.EndElement | talk/xmllite/xmlbuilder.cc:108-114 | the innermost open element is finished with all it held; the one around it is current again |
| XmlBuilder.XmlBuilder.Pop | talk/xmllite/xmlbuilder.cc:108-114 | current element and stack of parents without the innermost |
| XmlBuilder.XmlBuilder.CharacterData | talk/xmllite/xmlbuilder.cc:116-123 | text goes to the innermost open element, or nowhere |
| XmlBuilder.XmlBuilder.Error | talk/xmllite/xmlbuilder.cc:125-132 | everything built is dropped |
| XmlBuilder.XmlBuilder.CreateElement | talk/xmllite/xmlbuilder.cc:134-137 | the document element is handed over, once: the finished one, or the unfinished root while elements are open; afterwards there is none |
| XmlBuilder.XmlBuilder.Snapshot | talk/xmllite/xmlbuilder.cc:51-123 | what the mutable lists below a finished element really hold is the value the specification gives it |
| XmlCopies.Copy | talk/xmllite/xmlelement.cc:83-120 | a deep copy: it holds the same tree, to any depth, and shares no node with the original |
| XmlRoundTrip.StartDeclares | talk/xmllite/xmlparser.cc:94-119 | the bindings read off a printed start tag are the ones the printer had, or the tag is refused exactly when it binds a prefix to the empty namespace |
| XmlRoundTrip.AllAttrsDistinct | talk/xmllite/xmlprinter.cc:69-144 | an invented declaration never repeats an attribute the element has |
| XmlRoundTrip.AttrResolves | talk/xmllite/xmlparser.cc:223-243 | every printed attribute name, invented declarations included, resolves to where it came from |
| XmlRoundTrip.StartBuilds | talk/xmllite/xmlbuilder.cc:51-86 | the builder makes of a printed start tag the element that was printed |
| XmlRoundTrip.StartSteps | talk/xmllite/xmlparser.cc:94-119 | simulation, start tag: parser stack and printer stack are equal, or the run fails exactly when the tag is not printable |
| XmlRoundTrip.EndSteps | talk/xmllite/xmlparser.cc:121-130 | simulation, end tag: the element is closed with its children and the stack is as before |
| XmlRoundTrip.ElementRoundTrip | talk/xmllite/xmlprinter.cc:69-144 | printing an element at any point of a document and parsing the tokens appends the annotated element there, and fails exactly when it is not printable there |
| XmlRoundTrip.ChildrenRoundTrip | talk/xmllite/xmlprinter.cc:121-141 | the same for a list of children |
| XmlRoundTrip.PrintableExactlyWhen | talk/xmllite/xmlprinter.cc:69-144 | printability is a condition on the tree alone: no prefix bound to the empty namespace, no unqualified element under a default namespace |
| XmlRoundTrip.DocumentRoundTrip | talk/xmllite/xmlprinter.cc:69-144 | every well-formed tree comes back as itself with the invented declarations appended, empty texts dropped and adjacent texts joined; it is refused exactly when it is not expressible |
| XmlRoundTrip.UnqualifiedChildIsLost | talk/xmllite/xmlprinter.cc:83-98 | a concrete tree that does not come back: an unqualified child under a default namespace |
| XmlFixpoint.AnnotateRestores | talk/xmllite/xmlprinter.cc:69-144 | of a normalised tree nothing but appended xmlns attributes differs, at any depth |
| XmlFixpoint.RestoresExactlyWhen | talk/xmllite/xmlprinter.cc:69-144 | a tree comes back with nothing but xmlns attributes appended exactly when it is normalised |
| XmlFixpoint.TagIsFixpoint | talk/xmllite/xmlprinter.cc:69-144 | a start tag with its invented declarations spelled out is printed under the same stack with the same tokens |
| XmlFixpoint.PrintIsFixpoint | talk/xmllite/xmlprinter.cc:69-144 | printing the reparsed tree emits the first token stream again |
| XmlFixpoint.AnnotateSettles | talk/xmllite/xmlprinter.cc:69-144 | whatever is printed, what comes back is normalised, and a second round changes nothing |
| XmlFixpoint.NormalisedDocument | talk/xmllite/xmlprinter.cc:69-144 | the whole law for expressible normalised documents: accepted, restored, printed alike |
| XmlChildList.TextKeepsCoalesced | talk/xmllite/xmlelement.cc:393-403 | parsed text never leaves two texts side by side |
| XmlChildList.ClearKeepsCoalescedExactlyWhen | talk/xmllite/xmlelement.cc:450-463 | ClearNamedChildren leaves no two texts side by side exactly when between any two texts stands an element of another name |
| XmlChildList.ClearLeavesTextsAdjacent | talk/xmllite/xmlelement.cc:450-463 | the smallest list on which it does not |
| XmlChildList.WithoutExactly | talk/xmllite/xmlelement.cc:450-463 | what ClearNamedChildren keeps is exactly the texts and the elements with another namespace or local name |
| XmlChildList.WithoutInOrder | talk/xmllite/xmlelement.cc:450-463 | and it keeps them in their order |
| XmlChildList.ChildList.AddElement | talk/xmllite/xmlelement.cc:432-440 | the linked list and its last pointer stay sound; one child more, last |
| XmlChildList.ChildList.AddParsedText | talk/xmllite/xmlelement.cc:393-403 | the text is joined in place or linked behind |
| XmlChildList.ChildList.RemoveChildAfter | talk/xmllite/xmlelement.cc:359-375 | exactly that node is taken out, also when it is the first or the last |
| XmlChildList.ChildList.ClearNamedChildren | talk/xmllite/xmlelement.cc:450-463 | one walk over the links takes out exactly the named elements and keeps order and soundness |
| XmlChildList.ChildList.Copy | talk/xmllite/xmlelement.cc:83-120 | new links, none shared, the same children in order |
| XmlChildList.GrowAlike | talk/xmllite/xmlelement.cc:393-440 | the linked list and the sequence of children of the builder stay equal under every way of adding a child |
| XmlChildList.AppendElement | talk/xmllite/xmlelement.cc:432-440 | one element more, last |
| SendProtocol.LoopNext | talk/base/messagequeue.cc:163-260 | every move of the message loop is one the shared state allows and leaves a stack in which each call stands on something that can make it |
| SendProtocol.CallingNext | talk/base/thread.cc:380-411 | the same for Send up to its place in the list |
| SendProtocol.SendingNext | talk/base/thread.cc:410-438 | the same for Send from the flag to its return |
| SendProtocol.ReceivingNext | talk/base/thread.cc:440-463 | the same for ReceiveSends; only the front of a list is taken |
| SendProtocol.HandlingNext | talk/base/thread.cc:453-460 | the same for a message in hand |
| SendProtocol.ClearingNext | talk/base/thread.cc:465-491 | the same for Clear; only entries that are in the list are erased |
| SendProtocol.QueueingNext | talk/base/messagequeue.cc:265-285 | the same for Post |
| SendProtocol.UserNext | talk/base/thread.cc:380-491 | the same for handlers, which may call Send, Post, Clear and Quit at any time |
| SendProtocol.LandKeepsShape | talk/base/thread.cc:380-491 | no step leaves the state space |
| SendSafety.NextLocks | talk/base/thread.cc:380-491 | a thread takes a lock that is free, gives back the one it holds, and changes a list only inside |
| SendSafety.ActKeepsLocks | talk/base/thread.cc:380-491 | mutual exclusion is kept by every step |
| SendSafety.ActKeepsMessages | talk/base/thread.cc:380-491 | messages stay who they are, and each list stays in the order of posting |
| SendSafety.NextDirect | talk/base/thread.cc:392-411 | a step posts only to another thread |
| SendSafety.ActKeepsDirect | talk/base/thread.cc:392-411 | a Send past its first test goes to another thread, or runs its handler itself because it does not |
| SendSafety.StoppedRefuses | talk/base/thread.cc:380-411 | a message to a stopped thread is posted only by a Send that was already past its test |
| SendSafety.ActKeepsEnds | talk/base/messagequeue.cc:230-233 | a thread whose loop has ended was stopped, and stays so |
| SendSafety.EndsExactlyWhen | talk/base/messagequeue.cc:204-233 | of all steps of all threads, the loop of a thread is ended only by its own look at the stop flag after it found no message, and then always when it is stopped |
| SendSafety.ActKeepsPlaces | talk/base/thread.cc:380-491 | every posted message is in exactly one place: one list, one handler, or settled |
| SendSafety.Placed | talk/base/thread.cc:380-491 | where that is, counted in the lists, the stacks and the history |
| SendSafety.SettledStays | talk/base/thread.cc:380-491 | a message that was handled or cleared never comes back |
| SendOrigins.EffectsFollowCalls | talk/base/thread.cc:380-491 | whenever a step posts, pushes, clears, takes or stops, that is what the call on top of the stack of its thread asks for: target, handler and number |
| SendOrigins.ReturnsExactlyWhen | talk/base/thread.cc:380-411 | a Send comes back without posting exactly from a stopped target, or to its own thread after its handler ran there; otherwise it posts as soon as the lock is free; the same for Post |
| SendOrigins.WakesExactly | talk/base/thread.cc:413-491 | exactly which step wakes which thread: a message sent, posted, handled or cleared, a Quit, and the return of a Send that had waited |
| SendOrigins.WokenExactly | talk/base/thread.cc:413-491 | what each step does to the wake-up of each thread: it is there from a waking until the next wait |
| SendOrigins.LoopGoesOn | talk/base/messagequeue.cc:163-260 | the order in the loop: sends first, then the front of the queue whatever else is due, then what is due, then the stop flag, then rest until a wake-up or a timeout |
| SendOrigins.ReceivedAll | talk/base/thread.cc:440-463 | ReceiveSends returns with the flag down, and takes it down only over an empty list |
| SendOrigins.ErasesExactly | talk/base/thread.cc:473-488 | Clear takes out of the list exactly what has the handler it asks for, or any, and the number it asks for, or any |
| SendOrigins.PurgesExactly | talk/base/messagequeue.cc:344-355 | and out of the queue exactly the same, as often as it is there |
| SendOrigins.NextDescends | talk/base/thread.cc:380-491 | a call on a stack stays what it was called with, or was opened by this very step |
| SendOrigins.CallWasMade | talk/base/thread.cc:380-491 | in every run: every call under way was made by user code of its thread, with what it now carries, on the stack it now stands on, and has been under way since |
| SendOrigins.PostedAsCalled | talk/base/thread.cc:388-411 | in every run: every message ever posted has the target, the handler and the number of a Send that its sender called before |
| SendOrigins.CarriedAsCalled | talk/base/thread.cc:413-456 | in every run: so has the message a Send waits for, and the one whose handler runs, which runs on that target |
| SendOrigins.PushedAsCalled | talk/base/messagequeue.cc:265-285 | in every run: what Post puts at the end of a queue is what its caller gave it, where it gave it |
| SendOrigins.ClearedAsCalled | talk/base/thread.cc:465-491 | in every run: what Clear takes out matches what its caller asked for |
| SendWakeups.ActKeepsReady | talk/base/thread.cc:457-460 | only settled messages are ready, and a settled one is ready or about to be |
| SendWakeups.ActKeepsListWake | talk/base/thread.cc:401-422 | a parked thread with a message in its list has a wake-up, or a sender about to give it one |
| SendWakeups.ActKeepsReadyWake | talk/base/thread.cc:417-437 | a waiting sender whose flag is up has a wake-up, or someone about to give it one, also when nested Sends took wake-ups in between |
| SendWakeups.ActKeepsQueueWake | talk/base/messagequeue.cc:204-285 | a thread that found its queue empty and goes to wait, or waits, gets a wake-up with whatever was posted since |
| SendWakeups.ActKeepsOwed | talk/base/thread.cc:424-437 | a wake-up that Post gave is pending until the loop has waited, or a Send under way has taken wake-ups and will give one back |
| SendWakeups.ActKeepsStopWake | talk/base/messagequeue.cc:138-141 | a thread that rests although it was stopped has a wake-up pending |
| SendWakeups.ActKeepsTraffic | talk/base/messagequeue.cc:163-285 | what was posted to a queue is served, cleared or still there, in the order of posting |
| SendWakeups.ActKeepsNested | talk/base/thread.cc:392-422 | a Send made inside a handler posts after the message that is handled |
| SendWakeups.SweepUndisturbed | talk/base/thread.cc:465-491 | nobody changes a list that another thread is clearing |
| SendWakeups.ActKeepsSweeps | talk/base/thread.cc:465-491 | no entry that Clear has passed matches |
| SendWakeups.ClearLeavesNoMatch | talk/base/thread.cc:465-491 | when Clear returns nothing in the list and in the queue matches |
| SendRuns.InitialInv | talk/base/thread.cc:380-491 | the invariants hold at rest |
| SendRuns.ActKeepsInv | talk/base/thread.cc:380-491 | every step of every thread keeps all of them |
| SendRuns.RunInv | talk/base/thread.cc:380-491 | they hold in every state of every interleaving of any number of threads |
| SendRuns.SendReturnsOnce | talk/base/thread.cc:413-438 | a Send that posted returns only after its message was handled once or cleared once, never both, and is nowhere any more |
| SendRuns.HandledInOrder | talk/base/thread.cc:451-456 | handlers run on the thread the message was sent to, in the order of posting |
| SendRuns.NeverToItself | talk/base/thread.cc:392-395 | in no run a thread posts to itself |
| SendRuns.ClearedCompletely | talk/base/thread.cc:465-491 | in every run Clear returns with nothing left that matches, in the list and in the queue |
| SendRuns.StuckShape | talk/base/thread.cc:380-491 | a thread that cannot go on has ended, is parked without a wake-up or wants a lock that is taken; it holds no lock and owes no wake-up |
| SendRuns.StuckIsParked | talk/base/thread.cc:380-491 | when no thread can go on, every thread is parked or has ended: no lock is the reason |
| SendRuns.StuckIsIdle | talk/base/thread.cc:413-422 | ... and none of them waits for an answer, unless an ended thread has a message in its list: the chain of waiting would go up past the last message |
| SendRuns.AbandonedExactlyWhen | talk/base/thread.cc:380-411 | which steps lead to a message that nobody will handle: exactly those that end a loop with a message in the list, and those that post to a thread whose loop has ended |
| SendRuns.StuckExactlyWhen | talk/base/thread.cc:380-520 | the exact law with threads that quit: when nobody can go on, all threads are at rest and every sent message was handled or cleared exactly once, if and only if no ended thread has one in its list; no waiting thread has a posted message in its queue, and none that rests was stopped |
| SendRuns.NeverStuck | talk/base/thread.cc:380-491 | no deadlock and nothing lost in any run in which no thread was stopped: while a thread is busy, a list or a queue is not empty or a message not settled, some thread can take a step |
| SendRuns.QuitInBetween | talk/base/thread.cc:380-411 | a run in which the target quits, and its loop ends, between the test of a Send and its posting |
| SendRuns.SendToTheGone | talk/base/thread.cc:380-422 | the same run to its end: the Send posts to the ended thread and waits for ever |
| SendRuns.StoppedIsSpared | talk/base/thread.cc:380-411 | in every run, a message that reaches a stopped thread was posted by a Send that had made its test before the stop and had stood still since |
| SendRuns.NoLostWakeUp | talk/base/thread.cc:413-460 | in every run: a parked thread with a message, or whose wait is over, has a wake-up pending or about to be issued |
| SendRuns.NoLostPost | talk/base/thread.cc:424-437 | in every run: a posted message in the queue of a resting thread comes with a wake-up, and one taken by the waits of a Send is pending again when no such Send is left on the stack |
| SendRuns.PostsInOrder | talk/base/messagequeue.cc:163-285 | in every run: the messages a thread dispatched from its queue were posted to it, in that order, and without a Clear it dispatched exactly the first ones |
| WakeFlag.EventDispatcher.constructor | talk/base/physicalsocketserver.cc:556-560 | a new dispatcher has nothing pending |
| WakeFlag.EventDispatcher.Signal | talk/base/physicalsocketserver.cc:568-576 | one byte is pending however often it is signalled |
| WakeFlag.EventDispatcher.OnPreEvent | talk/base/physicalsocketserver.cc:582-592 | nothing is pending afterwards, and flag and pipe agree |
| WakeFlag.WaitsBetweenSignals | talk/base/physicalsocketserver.cc:568-592 | any number of signals between two waits is exactly one wake-up |
| WakeFlag.Effectuate | talk/base/physicalsocketserver.cc:568-592 | signalling the dispatcher of a thread, and taking it down, is what the steps of Send do to its wake-up flag |
| WakeFlag.FollowRun | talk/base/physicalsocketserver.cc:556-592 | along every schedule of any number of threads the dispatchers show exactly the flags of the Send protocol |
| TaskTree.SweptInTurn | talk/base/taskparent.cc:84-99 | aborting children one after the other, while each abort changes the tree, is one abort of all: the order does not matter |
| TaskTree.StoppingIsSweeping | talk/base/taskparent.cc:101-110 | marking a task, aborting its children and leaving its parent is the whole abort |
| TaskTree.SweptTree | talk/base/taskparent.cc:84-110 | after an abort a task is still in the child set of its parent exactly when it is not done |
| TaskTree.AbortReachesAll | talk/base/task.cc:153-181 | after an abort the task and all its descendants are done, except a busy task and what is below it |
| TaskTree.AbortReachesNoMore | talk/base/task.cc:153-181 | nothing outside that subtree changes but the one child set |
| TaskTree.AbortMarks | talk/base/task.cc:153-181 | what an abort does to each task it reaches, in fields: a busy one is only marked, any other is marked, done, blocked and in error |
| TaskTree.ErrorIsNoted | talk/base/taskparent.cc:101-110 | a parent hears that a child ended with an error, and nobody else does |
| TaskTree.SweptHangs | talk/base/task.cc:153-181 | an undone task keeps an undone parent, or was marked while it was busy |
| TaskTree.EndedHangs | talk/base/task.cc:134-150 | the same after a task ended of its own accord |
| TaskTree.SweepFromTop | talk/base/taskrunner.cc:50-54 | in a tidy tree aborting the children of the runner ends every task |
| TaskTree.SweepFromTopExactlyWhen | talk/base/taskrunner.cc:50-54 | it ends every task exactly when every task that is not done has a parent that is not done |
| TaskTree.DoneBelowDone | talk/base/taskparent.cc:84-110 | between steps everything below a done task is done |
| TaskTimeouts.RecalcIsEarliest | talk/base/taskrunner.cc:203-228 | the recalculated task has an earliest deadline, the last such in the queue; none exactly when no task has one |
| TaskTimeouts.UpdateRemembers | talk/base/taskrunner.cc:169-201 | no update makes the runner forget that some task has a deadline |
| TaskTimeouts.UpdatedExactly | talk/base/taskrunner.cc:169-201 | a new deadline goes to the cache unless the one there is earlier; a task without one is not in the cache |
| TaskTimeouts.UpdateKeepsEarliestExactlyWhen | talk/base/taskrunner.cc:169-201 | an update keeps the cached task earliest exactly unless that task moves its own deadline past another one |
| TaskRunners.TaskRunner.constructor | talk/base/taskrunner.cc:39-48 | a new runner has no task |
| TaskRunners.TaskRunner.AbortAllChildren | talk/base/taskparent.cc:84-99 | the loop over a copied set, which recurses, is one abort of all children |
| TaskRunners.TaskRunner.OnStopped | talk/base/taskparent.cc:101-110 | the children are aborted and the parent forgets the task and notes its error |
| TaskRunners.TaskRunner.Abort | talk/base/task.cc:153-181 | exactly the abort of the specification; it ends, measured by the undone tasks, and asks for one wake-up if it stopped the task |
| TaskRunners.TaskRunner.RecalcNextTimeout | talk/base/taskrunner.cc:203-228 | the walk of the specification |
| TaskRunners.TaskRunner.CheckForTimeoutChange | talk/base/taskrunner.cc:230-239 | the timer is told of a change exactly unless the deadline only moved later before it ran out |
| TaskRunners.AnnouncedExactlyWhen | talk/base/taskrunner.cc:230-239 | of a first deadline, of an earlier one, and of any change once the old one has run out |
| TaskRunners.TaskRunner.UpdateTaskTimeout | talk/base/taskrunner.cc:169-201 | the cache after the update, and whether the timer is told |
| TaskRunners.TaskRunner.ResetTimeout | talk/base/task.cc:255-267 | the new deadline, from the state, the limit and the suspension, and the cache |
| TaskRunners.TaskRunner.ClearTimeout | talk/base/task.cc:269-273 | no deadline, and the cache |
| TaskRunners.TaskRunner.Create | talk/base/taskparent.cc:37-44 | one task more, in the child set of its parent, also when that is done; the tree stays tidy unless the parent is done |
| TaskRunners.CreatedIs | talk/base/taskparent.cc:37-44 | the new task in fields: in its initial state, with no child, no limit and nothing pending; all others are as before |
| TaskRunners.TaskRunner.Begin | talk/base/task.cc:76-84 | a task in its initial state is last in the queue and the runner is woken, also when it is there already; in any other state nothing happens |
| TaskRunners.TaskRunner.Wake | talk/base/task.cc:183-190 | a task that is not done is not blocked any more; the runner is woken exactly if it was |
| TaskRunners.TaskRunner.Error | talk/base/task.cc:192-197 | a pending error on a task that is neither done nor has one, and it can run |
| TaskRunners.TaskRunner.Retime | talk/base/task.cc:244-287 | limit, suspension and resumption set the deadline anew, and the cache follows |
| TaskRunners.Limited | talk/base/task.cc:244-285 | the deadline that comes of a limit and a suspension: so many units of 100 nanoseconds ahead, and none without a limit, while suspended, or before and after its life |
| TaskRunners.TaskRunner.Perform | talk/base/task.cc:36-287 | each call of user code, from inside any task, does to all tasks, queue and clock exactly what it is for, breaks no invariant and undoes nothing that is over |
| TaskRunners.TaskRunner.Kill | talk/base/task.cc:153-181 | an abort called by user code, from inside that task or another one: the whole abort, and no invariant breaks |
| TaskRunners.TaskRunner.PerformAll | talk/base/task.cc:36-287 | nor does any sequence of them |
| TaskRunners.TaskRunner.Process | talk/base/task.cc:211-237 | whether the task code runs, the state that comes of it, and how the code finds the tasks: a deadline that has come is gone by then |
| TaskRunners.TaskRunner.Move | talk/base/task.cc:122-132 | blocked, or a new state with a new deadline |
| TaskRunners.TaskRunner.Conclude | talk/base/task.cc:117-150 | the end of a step: a task aborted meanwhile is done, any other goes where its state says |
| TaskRunners.TaskRunner.End | talk/base/task.cc:134-150 | a task that ended leaves no undone child behind and leaves its parent |
| TaskRunners.TaskRunner.Fault | talk/base/task.cc:99-113 | a task with a pending error ends in the error state |
| TaskRunners.TaskRunner.Step | talk/base/task.cc:86-151 | a done task does nothing; one with an error ends, and its parent hears of it; an aborted one is done when its step returns; the first step of a task starts it and touches no other; a turn that only blocks changes nothing else; all invariants hold |
| TaskRunners.TaskRunner.Run | talk/base/task.cc:115-150 | the same for a turn of the task code |
| TaskRunners.TaskRunner.RunTask | talk/base/taskrunner.cc:91-94 | a task is stepped until it is blocked, and each step uses the next turn |
| TaskRunners.TaskRunner.RunRound | talk/base/taskrunner.cc:88-95 | one round over a queue that may grow, in its order; a round without a step means that all are blocked |
| TaskRunners.TaskRunner.RunUntilBlocked | talk/base/taskrunner.cc:86-96 | rounds until all are blocked: from the first to the last step the turns go round the queue in its order, each task keeps its turn until it is blocked, and all that are passed over are blocked |
| TaskRunners.TaskRunner.Reap | talk/base/taskrunner.cc:97-124 | each done task is deleted once and taken out; the others keep their order |
| TaskRunners.TaskRunner.DeleteDone | talk/base/taskrunner.cc:97-127 | ... and the cached deadline is found again if its task went |
| TaskRunners.TaskRunner.RunTasks | talk/base/taskrunner.cc:70-136 | when it returns every task left is blocked and not done, in the order of before; each done task was deleted once for each time it was in the queue, so exactly once if and only if no done task was there twice; the steps before that went round the queue in its order, each task stepped until blocked; a nested call does nothing |
| TaskRunners.TaskRunner.PollTasks | talk/base/taskrunner.cc:138-153 | if the cached task has a limit and a deadline, and the clock has reached it, the task is unblocked unless done; otherwise no task changes |
| TaskRunners.LimitIsKept | talk/base/taskrunner.cc:138-153 | a run from a new runner: a task limited to s seconds is not woken by a poll before its deadline, is woken by one at it, and its code then finds the deadline gone |
| TaskRunners.TaskRunner.AbortEverything | talk/base/taskrunner.cc:50-53 | all tasks are done exactly when every undone task had an undone parent; then all are blocked |
| TaskRunners.TaskRunner.Destroy | talk/base/taskrunner.cc:50-54 | no task runs and, when the tree was tidy, all that were started are deleted |
| TaskRunners.SurvivorsAre | talk/base/taskrunner.cc:97-124 | the survivors are exactly the tasks in the queue that are not done |
| TaskRunners.SurvivorsInOrder | talk/base/taskrunner.cc:97-124 | two survivors keep their order |
| TaskRunners.FinishedOnceExactlyWhen | talk/base/taskrunner.cc:97-124 | no task is deleted twice exactly when no done task is in the queue twice |
| TaskRunners.QueueTwice | talk/base/task.cc:76-84 | two calls of Start before the first step put a task in the queue twice |
| TaskRunners.StartTwice | talk/base/taskrunner.cc:56-124 | ... and the runner then deletes it twice |
| TaskRunners.OutliveAbort | talk/base/taskrunner.cc:50-54 | a task made under a parent that is done is not reached when the runner aborts everything |
| TaskRunners.LateDeadlineIsKept | talk/base/taskrunner.cc:169-201 | that case in a run from a new runner: two tasks, three calls of set_timeout_seconds, and the runner waits past the deadline of the second task |
| Base64.SymbolOf | talk/base/base64.cc:40-70 | a character stands for a digit only if that digit is written so |
| Base64.LetterIsDigit | talk/base/base64.cc:30-70 | the two tables agree on every digit |
| Base64.StrictPads | talk/base/base64.cc:138-190 | after two or three digits exactly the padding that makes four completes the quantum |
| Base64.StrictQuantum | talk/base/base64.cc:138-190 | what the state loop finds in strict mode: the run of digits, padded or not, and where it stops |
| Base64.QuantumOfBytes | talk/base/base64.cc:99-136 | a quantum without unused bits is the encoding of its bytes |
| Base64.BytesOfQuantum | talk/base/base64.cc:99-136 | the digits of an encoding hold its bytes and no bit more |
| Base64.EncodedDecodes | talk/base/base64.cc:204-257 | strict decoding of an encoding gives the data and uses all of it |
| Base64.DecodedEncodes | talk/base/base64.cc:204-257 | what strict decoding accepts is the encoding of what it returns |
| Base64.StrictInverts | talk/base/base64.cc:99-257 | strict decoding succeeds exactly on outputs of the encoder and is its inverse both ways |
| Spellings.LettersSpelled | talk/base/base64.cc:30-38 | the alphabet, letter by letter (table 1 of RFC 4648), in both tables |
| Spellings.SymbolsSpelled | talk/base/base64.cc:40-70 | what every other character is: the equals sign pads, six are spaces, the rest is illegal |
| Spellings.QuantumIsNumber | talk/base/base64.cc:109-134 | a quantum is its bytes as one number in base 64, the first byte on top, with an equals sign for each byte that is missing |
| Spellings.ShortVectors | talk/base/base64.cc:99-136 | the vectors of section 10 of RFC 4648 |
| Spellings.LongVector | talk/base/base64.cc:99-136 | the longest of them |
| Base64.AnyStep | talk/base/base64.cc:138-190 | when everything is let through, a character that is no digit only moves on |
| Base64.AnyQuantum | talk/base/base64.cc:138-190 | a quantum is then the next four digits, whatever stands between |
| Base64.AnyDecodesAlphabet | talk/base/base64.cc:204-257 | bytes and, where padding is not demanded, success depend on the digits alone |
| Base64.SameDigitsSameBytes | talk/base/base64.cc:204-257 | two texts with the same digits decode alike, under every such set of flags |
| Base64.LaxReadsThroughNoise | talk/base/base64.cc:204-257 | lax decoding recovers the data through any noise between the digits |
| Base64Flags.WhiteIsStrictExactlyWhen | talk/base/base64.cc:138-257 | reading through spaces is strict reading of the text without them, in bytes and success, exactly unless the text is whole quanta, ends in a space and padding is demanded |
| Base64Flags.TrailingSpaceFails | talk/base/base64.cc:138-257 | such a text: one whole quantum and a space; it decodes without the space, or where padding is not demanded |
| Base64Flags.SameQuantum | talk/base/base64.cc:138-190 | quantum by quantum: the same digits and padding, up to the same place |
| Base64Flags.NoPadsIsIllegal | talk/base/base64.cc:165-172 | where padding is refused an equals sign is read like any illegal character |
| Base64Flags.EndOnlyJudges | talk/base/base64.cc:222-257 | the demand for padding and the condition at the end decide on success alone, not on the bytes |
| Base64.EncodeFromArray | talk/base/base64.cc:99-136 | the loop fills a buffer of the size computed beforehand with the encoding |
| Base64.EncodeQuantum | talk/base/base64.cc:109-134 | one turn of it writes one quantum and nothing else |
| Base64.GetNextQuantum | talk/base/base64.cc:138-190 | digits, position and padding as specified, in the buffer of the caller |
| Base64.DecodeFromArray | talk/base/base64.cc:204-257 | result, success and count of characters used as specified, for every set of flags |
| Base64.PushBytes | talk/base/base64.cc:227-239 | the whole bytes of a quantum and the bits left over |
| TextCodec.FitIsPrefix | talk/base/stringencode.cc:43-184 | a short buffer gets the encoding of the longest prefix that fits, never a part of an escape |
| TextCodec.FitAll | talk/base/stringencode.cc:43-184 | with room enough it gets the whole encoding |
| TextCodec.EncodedIsTame | talk/base/stringencode.cc:84-364 | the output of url_encode, xml_encode and the generic encoder has no character the encoder is there to avoid |
| TextCodec.EscapedIsGuarded | talk/base/stringencode.cc:43-63 | in the output of escape, read from the front, every illegal character and every mark of the text stands behind a mark |
| TextCodec.UrlSizeSuffices | talk/base/stringencode.cc:160-165 | the size url_encode reports is enough for every text |
| TextCodec.HexDigits | talk/base/stringencode.cc:429-445 | the two hex digits of a byte decode to it |
| Spellings.HexSpelled | talk/base/stringencode.cc:429-445 | the sixteen digits, and that capitals are read too |
| Spellings.HexReaches | talk/base/stringencode.cc:429-445 | hex_decode goes on to the end of the alphabet, in either case, and takes nothing else |
| Spellings.PairIsBitwise | talk/base/stringencode.cc:117-127 | two digits make a byte as shift and bitwise or do, even letters that are not hexadecimal |
| TextCodec.UnitReadsBack | talk/base/stringencode.cc:43-425 | each decoder reads an escape of its encoder back, whatever follows |
| TextCodec.EncodedDecodes | talk/base/stringencode.cc:43-425 | decode(encode(s)) is s, cut to the buffer, for escape, generic, url and xml and every byte string |
| Spellings.UnsafeSpelled | talk/base/stringencode.cc:145-158 | which characters are unsafe in a URL and in XML |
| Spellings.UrlSpelled | talk/base/stringencode.cc:160-184 | what url_encode writes for each character |
| Spellings.UrlReads | talk/base/stringencode.cc:186-212 | what url_decode makes of a plus sign and of an escape |
| Spellings.MarkedExactlyWhen | talk/base/stringencode.cc:43-107 | what escape and the generic encoder mark: the mark, what is illegal, and the character zero, which strchr finds in every list |
| Spellings.UnescapeReads | talk/base/stringencode.cc:65-82 | what unescape makes of a mark, in the text and at its end |
| Spellings.XmlSpelled | talk/base/stringencode.cc:333-364 | the five predefined entities (section 4.6 of XML 1.0) |
| Spellings.XmlReads | talk/base/stringencode.cc:366-425 | and what xml_decode makes of them, whatever follows |
| Spellings.DecimalReference | talk/base/stringencode.cc:397-417 | a decimal reference read |
| Spellings.HexReference | talk/base/stringencode.cc:397-417 | a hexadecimal reference read |
| Spellings.SignsAndSpaces | talk/base/stringencode.cc:397-404 | what strtoul lets through before the digits: a space and a sign, and a minus wraps around |
| Spellings.OtherReference | talk/base/stringencode.cc:393-420 | no other names are known |
| TextCodec.ZeroHasPlace | talk/base/stringencode.cc:65-425 | a decoder has a place for its terminating zero whatever the text; for xml_decode when the room is at least the length of the text |
| TextCodec.ZeroHasPlaceExactlyWhen | talk/base/stringencode.cc:65-425 | for a given text and room the decoded bytes fill the room, and the zero falls behind it, exactly when the pieces read up to some one of more than one byte sum up to the room |
| TextCodec.SomeRoomFillsExactlyWhen | talk/base/stringencode.cc:366-425 | some room is filled exactly when the text holds a reference to a character of more than one byte |
| TextCodec.LongPieceShrinks | talk/base/stringencode.cc:397-417 | such a piece comes from xml_decode alone and is shorter than its reference, which is why a room as large as the text is safe |
| HtmlCodec.DecimalIsShort | talk/base/stringencode.cc:306-315 | a numeric reference fits the buffer of eleven characters |
| Spellings.HtmlSpelled | talk/base/stringencode.cc:275-325 | what html_encode writes for each character |
| Spellings.DecimalSpelled | talk/base/stringencode.cc:306-315 | a decimal numeral is its digits, the highest first |
| Spellings.Utf8Vectors | talk/base/stringencode.cc:249-273 | characters of one to four bytes |
| HtmlCodec.NumberReadsBack | talk/base/stringencode.cc:397-417 | xml_decode reads every decimal reference up to 0x1FFFFF back |
| HtmlCodec.Utf8ReadsBack | talk/base/stringencode.cc:214-273 | utf8_decode inverts utf8_encode |
| HtmlCodec.HtmlDecodes | talk/base/stringencode.cc:275-331 | html_decode of html_encode is the text with every character in shortest form |
| HtmlCodec.ShortestIsKept | talk/base/stringencode.cc:214-273 | a character comes out as it was exactly when it was in shortest form |
| HtmlCodec.RewrittenKeeps | talk/base/stringencode.cc:214-331 | a text does exactly when all of it was |
| HtmlCodec.HtmlRoundTripExactlyWhen | talk/base/stringencode.cc:275-331 | the html pair is a round trip exactly on shortest-form UTF-8 |
| HtmlCodec.HtmlFitIsPrefix | talk/base/stringencode.cc:275-325 | a short buffer gets the encoding of the longest prefix that fits, and no character is split |
| HtmlCodec.HtmlEncodedIsTame | talk/base/stringencode.cc:275-325 | the output of html_encode is ASCII without markup besides references |
| HtmlCodec.NumberTakesTheZero | talk/base/stringencode.cc:397-424 | every single reference above 0x7F is an instance: with room for its bytes alone it fills that room |
| StringEncode.Escape | talk/base/stringencode.cc:43-63 | the buffer holds what fits and a zero; the return value is its length |
| StringEncode.Encode | talk/base/stringencode.cc:84-107 | the same for the generic encoder |
| StringEncode.UrlEncode | talk/base/stringencode.cc:160-184 | the same for url_encode; without a buffer a size that suffices |
| StringEncode.XmlEncode | talk/base/stringencode.cc:333-364 | the same for xml_encode |
| StringEncode.HtmlEncode | talk/base/stringencode.cc:275-325 | the same for html_encode |
| StringEncode.HtmlEscape | talk/base/stringencode.cc:283-315 | the escape of the character at a position, and how much it takes |
| StringEncode.Unescape | talk/base/stringencode.cc:65-82 | the decoded bytes and a zero, also when source and buffer are one array |
| StringEncode.ReadEscaped | talk/base/stringencode.cc:70-77 | the byte at a position, escaped or not, and how much it takes |
| StringEncode.Decode | talk/base/stringencode.cc:109-131 | the same for the generic decoder |
| StringEncode.ReadHex | talk/base/stringencode.cc:114-126 | the same with a pair of hex digits behind the mark |
| StringEncode.UrlDecode | talk/base/stringencode.cc:186-212 | the same for url_decode |
| StringEncode.UrlDecodeInto | talk/base/stringencode.cc:192-211 | the loop of it |
| StringEncode.ReadUrl | talk/base/stringencode.cc:193-206 | the byte at a position: a plus, a pair of hex digits or itself |
| StringEncode.ReadFront | talk/base/stringencode.cc:374-421 | what xml_decode makes of the front of its input |
| StringEncode.ReadReference | talk/base/stringencode.cc:397-417 | what it makes of a numeric reference |
| StringEncode.XmlDecode | talk/base/stringencode.cc:366-425 | the decoded bytes and a zero, also in place, whenever the zero has a place in the array |
| StringEncode.HtmlDecode | talk/base/stringencode.cc:327-331 | the same |
| StringEncode.Store | talk/base/stringencode.cc:65-425 | writing behind the read position loses no unread input, in one array too |
| TimeUtils.FastAgreesExactlyWhen | talk/base/timeutils.cc:152-199 | the compiled form of TimeIsLaterOrEqual differs from the reference form exactly at distance 2^31; the other two never |
| TimeUtils.TrueTime | talk/base/timeutils.cc:160-199 | comparison and difference agree with true time on every span under 2^31, across the wrap |
| TimeUtils.NoWrapPlain | talk/base/timeutils.cc:170-199 | without a wrap they agree with the plain order of the numbers, which the heap uses |
| DelayHeap.TopIsFirst | talk/base/messagequeue.h:161-164 | the top of the heap comes before all others |
| DelayHeap.Push | talk/base/messagequeue.cc:302-305 | a heap with one element more |
| DelayHeap.Pop | talk/base/messagequeue.cc:201-202 | a heap without its top |
| DelayHeap.SiftUp | talk/base/messagequeue.cc:302-305 | moving up restores the order and keeps the elements |
| DelayHeap.SiftDown | talk/base/messagequeue.h:233-237 | moving down restores the order and keeps the elements |
| DelayHeap.Reheap | talk/base/messagequeue.h:233-237 | any vector becomes a heap of the same elements |
| MessageQueues.MsgsOfBag | talk/base/messagequeue.cc:357-373 | rearranging the heap keeps its messages |
| MessageQueues.KeptAndMatching | talk/base/messagequeue.cc:344-355 | what Clear keeps and what it takes is all there was |
| MessageQueues.KeptExactly | talk/base/messagequeue.cc:344-355 | what is kept and what is taken is told apart by handler and number, each of which may stand for any |
| MessageQueues.KeptDelayedExactly | talk/base/messagequeue.cc:357-372 | the same in the heap |
| MessageQueues.KeptInOrder | talk/base/messagequeue.cc:344-355 | what is kept, and what is taken, is in the order of before |
| MessageQueues.TakenExactly | talk/base/messagequeue.cc:327-374 | of slot, queue and heap together, what Clear takes and what it leaves in the slot |
| MessageQueues.AccountCleared | talk/base/messagequeue.cc:327-374 | Clear moves exactly its takings to the cleared ones |
| MessageQueues.ScanMovesDueExactlyWhen | talk/base/messagequeue.cc:194-204 | a scan moves all that is due exactly when every due message has a smaller trigger, as a plain number, than every one that is not due |
| MessageQueues.ScanMovesDue | talk/base/messagequeue.cc:194-204 | ... as with triggers and clock in a span under 2^31 that does not cross the wrap |
| MessageQueues.ScanInOrder | talk/base/messagequeue.h:151-164 | in plain numbers: of two messages that one scan moves the earlier has the smaller trigger, or the same and no larger number; and none that stays comes before one that was moved |
| MessageQueues.NumbersInOrder | talk/base/messagequeue.h:151-164 | of messages with one trigger none is moved without those posted before it, and they come out in the order of posting |
| MessageQueues.WrapHidesDue | talk/base/messagequeue.h:161-164 | across the wrap it need not: a concrete heap whose due message every scan leaves behind |
| MessageQueues.ExactlyOnePlace | talk/base/messagequeue.cc:151-374 | an accepted message is at any time exactly one of pending, delivered, disposed of or cleared |
| MessageQueues.MessageQueue.constructor | talk/base/messagequeue.cc:104-117 | an empty queue that is not stopped |
| MessageQueues.MessageQueue.Quit | talk/base/messagequeue.cc:138-141 | stopped, and one wake-up |
| MessageQueues.MessageQueue.Post | talk/base/messagequeue.cc:265-285 | last in the queue and one wake-up, or nothing when stopped |
| MessageQueues.MessageQueue.DoDelayPost | talk/base/messagequeue.cc:287-309 | in the heap with the next number, which wraps; or nothing when stopped |
| MessageQueues.MessageQueue.ScanDelayed | talk/base/messagequeue.cc:194-204 | what is moved goes behind what is ready, by trigger and number, and the time to the next trigger |
| MessageQueues.MessageQueue.Clear | talk/base/messagequeue.cc:327-374 | takes exactly the matches from the slot, the queue and the heap; survivors keep their order and the heap is one |
| MessageQueues.MessageQueue.ClearQueue | talk/base/messagequeue.cc:344-355 | the erasing loop keeps exactly the survivors, in order |
| MessageQueues.MessageQueue.ClearHeap | talk/base/messagequeue.cc:357-372 | the compaction in place does too |
| MessageQueues.MessageQueue.TakeFront | talk/base/messagequeue.cc:205-229 | the front message is delivered, or disposed of |
| MessageQueues.MessageQueue.Take | talk/base/messagequeue.cc:205-229 | the first message that is no dispose message; those before it are dropped |
| MessageQueues.MessageQueue.NextWait | talk/base/messagequeue.cc:235-244 | the time to the next trigger or what is left of the time asked for, whichever is less, and for ever only when there is neither |
| MessageQueues.MessageQueue.OnePass | talk/base/messagequeue.cc:181-233 | one pass: the scan, then the first message |
| MessageQueues.MessageQueue.Get | talk/base/messagequeue.cc:163-260 | a message got is the first ready or due one of the last pass; it goes on as long as waits succeed and time is left, asks no wait for longer than that, and gives up only when stopped with nothing ready, after a failed wait or when the time is over |
| MessageQueues.MessageQueue.Unpeeked | talk/base/messagequeue.cc:167-171 | a peeked message is delivered by the next Get |
| MessageQueues.MessageQueue.Peek | talk/base/messagequeue.cc:151-161 | the message goes to the slot and is not delivered yet; a second Peek shows it again; a stopped queue without a message shows none and has nothing ready or due |
| MessageQueues.MessageQueue.Repeek | talk/base/messagequeue.cc:158-159 | a message in the slot counts as pending |
| MessageQueues.FirstPostedFirstGot | talk/base/messagequeue.cc:287-309 | two messages posted for one time are got in the order of posting, unless the counter wraps between them |
| SignalThreads.StepKeepsInv | talk/base/signalthread.cc:66-164 | every step of either thread keeps the invariant |
| SignalThreads.RunKeepsInv | talk/base/signalthread.cc:66-164 | every schedule does |
| SignalThreads.CountIsReferences | talk/base/signalthread.h:134-149 | the count is the undropped reference of the owner plus the open scopes; the object is deleted exactly at zero |
| SignalThreads.NothingTouchesTheDead | talk/base/signalthread.h:134-149 | after that no step is possible: no worker, no message, no call |
| SignalThreads.DroppedOnce | talk/base/signalthread.cc:78-149 | no later step drops the reference again |
| SignalThreads.DroppedOnceExactlyWhen | talk/base/signalthread.cc:78-149 | over every schedule, once the owner is out: the reference was dropped no more than once exactly when no waiting Destroy was called from the done signal of a releasing thread |
| SignalThreads.RunKeepsOnItsWay | talk/base/signalthread.cc:78-149 | while main lives, what the last reference waits for is on its way: the worker, the done message, or a handler that deletes |
| SignalThreads.GivenUpIsDeleted | talk/base/signalthread.cc:78-149 | no leak, over every schedule: once the owner has called Destroy or Release, main is in no call, the worker is past the object and no done message is pending, the object is deleted |
| SignalThreads.FinishingEnds | talk/base/signalthread.cc:78-149 | in whatever order the steps of the worker, the delivery and the returns come, they are bounded, and where no more is possible the object is deleted |
| SignalThreads.GivenUpEnds | talk/base/signalthread.cc:78-149 | from every state after such a call that is not the one deadlock these steps lead to the deletion |
| SignalThreads.LeakedExactlyWhen | talk/base/signalthread.cc:151-164 | if main dies before the object is deleted it never is |
| SignalThreads.ReleaseSignalsOnce | talk/base/signalthread.cc:100-149 | an object that was released and not destroyed after is deleted only after it fired its done signal, once |
| SignalThreads.EnteredAlive | talk/base/signalthread.h:136-142 | every scope is entered on a live object |
| SignalThreads.WorkerIsReady | talk/base/signalthread.cc:120-149 | when the done message comes the worker needs the lock no more; a start finds no worker |
| SignalThreads.SilentOnceStopping | talk/base/signalthread.cc:120-149 | once stopping was entered the done signal never fires |
| SignalThreads.MisuseDropsTwice | talk/base/signalthread.cc:78-149 | a schedule from the start that reaches such a call |
| SignalThreads.MisuseDropsTwiceAlways | talk/base/signalthread.cc:78-149 | in every state, such a call takes the count to -1 without the object being deleted |
| SignalThreads.JoinHangsExactlyWhen | talk/base/signalthread.cc:78-149 | a waiting Destroy never ends exactly when main is in the done signal and the worker, started again, still needs the lock; otherwise steps of the worker bring it to its end |
| SignalThreads.DestroyHangsExactlyWhen | talk/base/signalthread.cc:78-149 | the same as a condition on the state before the call |
| SignalThreads.RestartedThenDestroyed | talk/base/signalthread.cc:78-149 | a schedule from the start that hangs: the done signal starts the object again and destroys it |
| FifoBuffers.RotatedOn | talk/base/stream.cc:978-1025 | moving the read position turns the ring |
| FifoBuffers.RingSlice | talk/base/stream.cc:978-998 | a stretch of the ring is at most two stretches of the array |
| FifoBuffers.RingSplice | talk/base/stream.cc:1000-1025 | two copies at most put bytes in one stretch of the ring |
| FifoBuffers.NotInWindow | talk/base/stream.cc:943-960 | no byte of the contents lies in the write window |
| FifoBuffers.WindowIsAhead | talk/base/stream.cc:943-970 | writing into the window leaves the contents alone and shows behind them |
| FifoBuffers.FifoBuffer.constructor | talk/base/stream.cc:817-821 | an empty open buffer of that capacity, which may be zero |
| FifoBuffers.FifoBuffer.ReadOffset | talk/base/stream.cc:978-998 | the bytes from an offset on, or the end, or that there are none yet |
| FifoBuffers.FifoBuffer.WriteOffset | talk/base/stream.cc:1000-1025 | exactly these places of the ring change; the contents do not |
| FifoBuffers.FifoBuffer.Read | talk/base/stream.cc:873-895 | takes a prefix of the contents; the write event comes exactly when the buffer stops being full |
| FifoBuffers.FifoBuffer.Write | talk/base/stream.cc:897-918 | appends as much as fits; the read event comes exactly when the buffer stops being empty |
| FifoBuffers.FifoBuffer.Close | talk/base/stream.cc:920-923 | closed |
| FifoBuffers.FifoBuffer.GetReadData | talk/base/stream.cc:925-930 | the window is the front of the contents up to the end of the array |
| FifoBuffers.FifoBuffer.ConsumeReadData | talk/base/stream.cc:932-941 | the contents without that front |
| FifoBuffers.FifoBuffer.GetWriteBuffer | talk/base/stream.cc:943-960 | a window behind the contents, empty exactly when the buffer is full; the contents stay |
| FifoBuffers.FifoBuffer.ConsumeWriteBuffer | talk/base/stream.cc:962-970 | what was written behind the contents belongs to them |
| FifoBuffers.FifoBuffer.SetCapacity | talk/base/stream.cc:838-855 | the contents stay; refused exactly when they do not fit; no event is posted, and a full buffer stops being full exactly when it grows |
| FifoRuns.Perform | talk/base/stream.cc:838-970 | any one operation: what was there and what was put in is what was taken out and what is there now, with the events it posts |
| FifoRuns.Put | talk/base/stream.cc:943-970 | writing through the window and consuming it appends the bytes |
| FifoRuns.Take | talk/base/stream.cc:925-941 | reading through the window and consuming it takes a prefix |
| FifoRuns.UntoldAreGrown | talk/base/stream.cc:838-855 | the changes of level nobody is told of are as many as the times a full buffer grew |
| FifoRuns.EventsTellAllExactlyWhen | talk/base/stream.cc:838-970 | over any run the posted events are those that becoming readable and becoming writable call for, exactly when no full buffer grew |
| FifoRuns.Session | talk/base/stream.cc:817-1025 | a run of any operations: all bytes put in are those taken out and those still there, in order; and the law of the events, by the calls of SetCapacity alone |
| FifoRuns.GrownUntold | talk/base/stream.cc:838-855 | a run in which the events miss a change: a buffer of no capacity is made larger |
| Flows.Fill | talk/base/stream.cc:1208-1221 | what was read stands behind what was there; it stops when full, at the end, or on an error |
| Flows.Drain | talk/base/stream.cc:1224-1239 | a prefix of the buffer was accepted, all of it exactly on success |
| Flows.MoveFront | talk/base/stream.cc:1229-1235 | what is left moves to the front unchanged |
| Flows.Flow | talk/base/stream.cc:1192-1248 | pending then read bytes are accepted then left bytes on every return path; the result is that of the last call that failed, or success at the end of the source with nothing left |
| Flows.Resumed | talk/base/stream.cc:1192-1248 | calling it again with what was left loses and reorders nothing |
| Chatroom.AllowedTransitions | talk/xmpp/chatroommoduleimpl.cc:432-445 | an allowed change tells of an entry, or an exit, exactly when it crosses the border of the room |
| Chatroom.EveryChangeListed | talk/xmpp/chatroommoduleimpl.cc:432-445 | the table has every change of state |
| Chatroom.TableMeans | talk/xmpp/chatroommoduleimpl.cc:432-445 | what each allowed entry of the table is for |
| Chatroom.EnterFailureReadsBack | talk/xmpp/chatroommoduleimpl.cc:609-635 | the status told of a failed entry determines the error code it came from, for every known code, and for 403 who blocked whom |
| Chatroom.ExitFailureReadsBack | talk/xmpp/chatroommoduleimpl.cc:637-653 | the status told of a forced exit determines its code, for every known code |
| Chatroom.FailureMeans | talk/xmpp/chatroommoduleimpl.cc:609-653 | what each known code says |
| Chatroom.EntriesAlternate | talk/xmpp/chatroommoduleimpl.cc:544-607 | between two entries there is an exit |
| Chatroom.EntryBeforeExit | talk/xmpp/chatroommoduleimpl.cc:544-607 | before an exit there is an entry with no other exit in between |
| Chatroom.UnchangedSince | talk/xmpp/chatroommoduleimpl.cc:491-524 | the version counts the member callbacks, and with an equal count the map is the same |
| Chatroom.Session | talk/xmpp/chatroommoduleimpl.cc:173-607 | in every run of requests and stanzas entry and exit callbacks alternate, entry first, and replaying the member callbacks gives the member map |
| Chatroom.ChatroomModule.constructor | talk/xmpp/chatroommoduleimpl.cc:156-161 | outside, no members, nothing told |
| Chatroom.ChatroomModule.SetChatroomJid | talk/xmpp/chatroommoduleimpl.cc:211-222 | only outside the room and only a bare jid |
| Chatroom.ChatroomModule.SetNickname | talk/xmpp/chatroommoduleimpl.cc:229-236 | only outside the room |
| Chatroom.ChatroomModule.FindTransition | talk/xmpp/chatroommoduleimpl.cc:556-565 | the first entry of the table for the change |
| Chatroom.ChatroomModule.ChangePresence | talk/xmpp/chatroommoduleimpl.cc:544-607 | new state, result and callback of every change, from client and server, allowed or not |
| Chatroom.ChatroomModule.Fire | talk/xmpp/chatroommoduleimpl.cc:449-463 | one callback, and what was told still agrees with the state |
| Chatroom.ChatroomModule.RequestEnterChatroom | talk/xmpp/chatroommoduleimpl.cc:275-316 | requested exactly when outside, with a room and a nickname, and when sending succeeded |
| Chatroom.ChatroomModule.RequestExitChatroom | talk/xmpp/chatroommoduleimpl.cc:319-337 | requested exactly when inside and when sending succeeded |
| Chatroom.ChatroomModule.ServerChangeMyPresence | talk/xmpp/chatroommoduleimpl.cc:531-542 | inside without a type, outside with one, as far as the table allows |
| Chatroom.ChatroomModule.ServerChangedOtherPresence | talk/xmpp/chatroommoduleimpl.cc:491-524 | by the type of the stanza: unavailable takes a known member out, error changes nothing, anything else puts it in; with the one callback for each, and none for an unknown member that goes |
| Chatroom.ChatroomModule.Tell | talk/xmpp/chatroommoduleimpl.cc:500-520 | map, version and callback change together |
| Chatroom.ChatroomModule.HandleStanza | talk/xmpp/chatroommoduleimpl.cc:173-194 | stanzas of other rooms are left alone; a presence from the own nickname is the own one, any other that of a member; messages are handed on |
| Chatroom.MemberEnumerator.constructor | talk/xmpp/chatroommoduleimpl.cc:687-694 | valid, before the first member |
| Chatroom.MemberEnumerator.ValidExactlyWhile | talk/xmpp/chatroommoduleimpl.cc:738-741 | valid exactly while no member callback came since its creation, and then its keys are those of the map |
| Chatroom.MemberEnumerator.Current | talk/xmpp/chatroommoduleimpl.cc:696-705 | a member exactly when valid and on one, and then the right one |
| Chatroom.MemberEnumerator.Next | talk/xmpp/chatroommoduleimpl.cc:722-736 | one place on, true while there is a member; nothing moves when invalid |
| Chatroom.MemberEnumerator.Prev | talk/xmpp/chatroommoduleimpl.cc:707-720 | one place back, and before the first from there |
| Chatroom.MapOrder | talk/xmpp/chatroommoduleimpl.cc:687-694 | all keys once, in the order of the map |
| Chatroom.Enumerate | talk/xmpp/chatroommoduleimpl.cc:687-751 | from the beginning Next comes to every member once, in order |

## Left out

Members that state less than the code could be asked for:

- XmlRoundTrip.DocumentRoundTrip: local names must be non-empty and without a colon and attribute names distinct, which AddAttr's callers are asked for; the CDATA flag of a text is not modelled.
- XmlParser.XmlParser.Accepts, DistinctRaw: expat is not part of this model, and these two stand for it: a token stream that refuses a raw attribute name given twice, an end tag that does not match, text outside the document element and a second document element. Its newline normalisation of attribute values is left out, and so are error codes and positions.
- XmlParser.PrintAndParse: works on tokens; the character level is separate, in XmlEscape.
- XmlBuilder.XmlBuilder.BuildElement: children and attributes of an element are sequences in the builder; the linked list of children is modelled on its own in XmlChildList, the linked list of attributes is not.
- XmlChildList.ChildList.Copy: copies the links of one list; the copy of what hangs below is XmlCopies.Copy. InsertChildAfter, which does not keep the last pointer, is left out.
- XmlnsStack.XmlnsStack.AddNewPrefix: the number behind a base is unbounded.
- SendRuns.NeverStuck: says that some thread can step, not that a given thread is ever scheduled; user code is taken to return, and handlers do not run a message loop of their own. That a thread is started again after its loop ended, AutoThread and the destructor of Thread are left out.
- SendProtocol.LoopNext: a delayed message that is due, or one posted from outside, is a choice of the scheduler; the queue holds what threads post. The order of both, the peek slot and dispose messages are in MessageQueue.
- SendProtocol.ClearingNext: Clear of a thread goes on to its queue; the peek slot and the heap of delayed messages are in MessageQueue.
- TaskRunners.TaskRunner.Reap: a task that is in the queue twice is looked at again after it was deleted; what the model does from the second deletion on stands for undefined behaviour.
- TaskRunners.TaskRunner.RunTasks: the code of tasks is a script of turns; if the script ends before all tasks are blocked the result says that the run is not finished. Which of OnTimeout, ProcessStart and ProcessResponse a turn is, is not told apart. An override of Stop, SignalTimeout, start times and the overflow of 64-bit times are left out. A task that was aborted before it was started is never deleted, as in the code.
- TaskRunners.TaskRunner.PollTasks: WakeTasks is taken to run the tasks later, as XmppPump does by posting to its thread (talk/xmpp/xmpppump.cc:65), not from within; only then can the loop go on to a next due task.
- StringEncode.XmlDecode: asks that the zero has a place in the array, which fails exactly when `Fills` holds and the given size is that of the array. strtoul is modelled on the input given, with 64-bit numbers.
- MessageQueues.MessageQueue.Get: what other threads do, and the clock, come as a sequence of events at the waits; the call of ReceiveSends, logging and the registration of the queue are left out.
- MessageQueues.MessageQueue.DoDelayPost: the posting number wraps at 2^32, and so does the order of equal triggers then.
- SignalThreads.StepKeepsInv: the hooks OnWorkStart, OnWorkStop and OnWorkDone call nothing of the object; the owner calls only while it owns it; a waiting Destroy from the done signal of a releasing thread breaks the invariant, which DroppedOnceExactlyWhen states over every schedule.
- FifoBuffers.FifoBuffer.ConsumeReadData: with GetWriteBuffer on an open stream, asks for a capacity other than zero, by which the code divides. The lock is left out, and posted events are a log.
- FifoBuffers.FifoBuffer.GetWriteBuffer: on an empty buffer, as with SetCapacity, bytes written ahead with WriteOffset are forgotten, as in the code.
- Flows.Flow: without a length argument bytes read and not written are lost on an error, as in the code; they are the ghost result `lost`. The streams are given by scripts.
- Chatroom.ChatroomModule.HandleStanza: the handler is set and does not call back into the module; jids are numbers for the room and the nickname; the version is unbounded.

Parts of the repository that are not modelled:

- expat, select and sockets, DNS, operating-system threads, thread-local storage and the Win32 branches: third-party code and system calls.
- CDATA output, SetAttr, ClearAttr and the other editing calls of XmlElement.
- hex_encode, tokenize, split, the file-name helpers, IsBase64Encoded: single-function claims.
- Buffer, ByteBuffer, byte order, cryptstring, ip and socket addresses: easier relatives of what is here.
- FileStream, POpenStream, LoggingAdapter, logging, sigslot: input and output, and template copies.
- Sending messages to a chatroom, connection status, the XMPP client and engine, the examples: wiring.
- Memory reclamation of message data and of tasks beyond "deleted at most once".
