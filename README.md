# Declarative editor: text and tree synchronisation

This project models the controller of the Vaadin declarative editor (`DeclarativeEditor`).
The editor shows a design as markup text in a text area and, beside it, the component tree
that the text describes. When the text is edited, `updateTree` parses it with `Design.read`.
It then replaces the parse context `dc` and makes the tree holder show the new root.
`addValueChangeListeners` then subscribes the editor to every component of the new tree that
can notify of value changes. When such a component's value changes, its listener runs
`updateCode`. That method serialises the component in the tree holder with `Design.write` and
writes the result back into the text area. The flag `disableEvents` is raised around that write,
so that the resulting text change is not parsed again. A change of the page's URI fragment loads
the template `<fragment>.html` (`default.html` when the fragment is absent or empty). The editor
then parses its value.

## Structure

- `wrappers.dfy`, module `Wrappers`: `Option` (a value or Java `null`) and `Result` (a value or
  a thrown exception).
- `components.dfy`, module `Components`: the component tree as a datatype. A node has a tag,
  attributes, the two capabilities the walk dispatches on (value-change notifier, has
  components) and ordered children. It also holds the walk `Subscriptions`, which lists the
  listeners `addValueChangeListeners` registers. The lemmas there prove the walk exact.
  A live component is identified by a `Handle`: the number of the parsed tree it belongs to,
  and its path of child indices.
- `sync.dfy`, module `Sync`: the editor's fields as a `State` value and one function per Java
  method. Each function maps the state before a call to the state after it, plus a `Completion`:
  either the call returned, or an unchecked exception escaped. The module also defines the
  invariant `Valid` and the lemmas about the controller.
- `editor.dfy`, module `Editor`: class `DeclarativeEditor`. Its fields are the Java fields, and
  its methods update them step by step. Each method that models a Java method returning a
  completion `ensures Step(Snap(), c) == Sync.<Op>(env, old(Snap()), …)`. There are three
  exceptions. `LoadFile` returns no completion, since `loadFile` catches everything, and
  ensures `Snap() == Sync.LoadFile(env, old(Snap()), selector)`. `AddValueChangeListeners` and
  `AddChildListeners` may change only `listeners`, and ensure that it grows by exactly the
  walk's `Subscriptions` or `ChildSubscriptions`. The three listener entry points
  (`TextChange`, `FragmentChanged`, `ValueChange`) and `Init` also keep `Valid()`. The `for` loop of `addValueChangeListeners` is
  its own method, `AddChildListeners`, which the walk calls for a component that has children.

Collaborators are fields of `Sync.Env`, a value the editor is constructed with:
- `read` stands for `Design.read`.
- `write` stands for `Design.write`; its failure is the caught `IOException`.
- `decode` stands for `ByteArrayOutputStream.toString("UTF-8")`.
- `template` stands for the resource lookup with `IOUtils.toString`; `None` is any failure.
- `echo` says whether `editor.setValue` re-raises a text change synchronously. Vaadin 7's text
  area does not. With `echo` true, the write in `updateCode` is an explicit re-entrant call of
  `editorChanged`, and the model proves that this call parses nothing.

### Behaviour of the code worth knowing

- The guard is not released on failure. It is set at line 132 and lowered at line 134 with no
  `finally`, so a failure of the UTF-8 conversion at line 133 leaves it raised.
  `Sync.UpdateCodeDecodeFails` shows this case, and `Sync.WedgedSession` shows that the tree is
  then never replaced again.
- A read does not detach the listeners of the tree it discards. `removeAllComponents` at
  line 117 only empties the holder. A value change on a component of an earlier tree still
  runs `updateCode`, and that serialises whatever the holder holds now
  (`Sync.StaleListenerSerialisesCurrentTree`).
- A rejected text is not caught. The exception of `Design.read` escapes `updateTree`
  (`Raised(DesignFault)`). The code never sets an error indicator; it only clears one (line 92).
- An empty tree holder makes `getComponent(0)` throw before anything changes
  (`Raised(IndexOutOfBounds)`). A listener of a discarded tree causes this once a design with
  no root has been read (the second `ensures` of `Sync.StaleListenerSerialisesCurrentTree`).
- An `IOException` from `Design.write` is caught and printed, and the text is left as it was.
- An absent or empty selector resolves to `default`. An empty text is given to `Design.read`
  unchanged.
- `Design.write` does not receive the parse context `dc`. The context is stored, but only its
  root is ever used.

## Model

| member | source | states |
|---|---|---|
| Components.SubscriptionsSupport | src/main/java/org/vaadin/artur/declarative/DeclarativeEditor.java:141-157 | every listener the walk registers belongs to the walked tree and to a node at or below the walk's start |
| Components.ChildSubscriptionsSupport | src/main/java/org/vaadin/artur/declarative/DeclarativeEditor.java:152-156 | the loop over the first k children registers listeners only below those k children |
| Components.ChildSubscriptionsCount | src/main/java/org/vaadin/artur/declarative/DeclarativeEditor.java:152-156 | for a node under child i, the loop's listener count is that of the recursive call on child i |
| Components.SubscriptionsAtStart | src/main/java/org/vaadin/artur/declarative/DeclarativeEditor.java:142-150 | the walk puts a listener on the component it starts at exactly when it is a value-change notifier |
| Components.SubscriptionsBelow | src/main/java/org/vaadin/artur/declarative/DeclarativeEditor.java:152-156 | below its start, the walk reaches a node only through a component that has components, via the right child |
| Components.SubscriptionsCount | src/main/java/org/vaadin/artur/declarative/DeclarativeEditor.java:141-157 | the walk from any start gives the node at every relative path one listener if it is a reachable notifier, else none |
| Components.SubscriptionsExact | src/main/java/org/vaadin/artur/declarative/DeclarativeEditor.java:141-157 | from a root: exactly one listener on each notifier reachable through containers, whether or not the containers are notifiers; none on any other node or tree |
| Sync.TemplateName | src/main/java/org/vaadin/artur/declarative/DeclarativeEditor.java:97-99 | the resolved template name is never empty; it is the selector when that is non-empty, and `default` otherwise |
| Sync.DefaultTemplate | src/main/java/org/vaadin/artur/declarative/DeclarativeEditor.java:96-106 | for every editor state and collaborators, loadFile with an absent selector, an empty one and `default` has the same effect |
| Sync.NewListenersExact | src/main/java/org/vaadin/artur/declarative/DeclarativeEditor.java:118-121 | a read registers listeners only on the new tree: one per reachable notifier of the new root, none when there is no root |
| Sync.InitialIsValid | src/main/java/org/vaadin/artur/declarative/DeclarativeEditor.java:50-53 | the freshly constructed editor satisfies the invariant |
| Sync.UpdateTreeGuarded | src/main/java/org/vaadin/artur/declarative/DeclarativeEditor.java:110-112 | with `disableEvents` raised, updateTree changes nothing and returns |
| Sync.UpdateTreeReadFails | src/main/java/org/vaadin/artur/declarative/DeclarativeEditor.java:114-117 | when Design.read throws, the state is exactly as before and the exception escapes |
| Sync.UpdateTreeReplaces | src/main/java/org/vaadin/artur/declarative/DeclarativeEditor.java:114-121 | a successful read replaces `dc` wholesale; the holder holds exactly the new root, or nothing; old trees keep their listeners; the new tree gets one per reachable notifier; the text is untouched |
| Sync.UpdateTreeKeepsValid | src/main/java/org/vaadin/artur/declarative/DeclarativeEditor.java:109-122 | updateTree preserves the invariant: the holder shows the last root read, no component has two listeners, and the current tree's listeners are exactly the walk's |
| Sync.EditorChangedClearsError | src/main/java/org/vaadin/artur/declarative/DeclarativeEditor.java:91-94 | after editorChanged the component error is cleared; the tree, context and listeners are as updateTree leaves them |
| Sync.EditorChangedKeepsValid | src/main/java/org/vaadin/artur/declarative/DeclarativeEditor.java:91-94 | editorChanged preserves the invariant |
| Sync.SetEditorValueKeepsValid | src/main/java/org/vaadin/artur/declarative/DeclarativeEditor.java:102-103 | writing the editor's value, with or without the echoed text change, preserves the invariant |
| Sync.UpdateCodeGuarded | src/main/java/org/vaadin/artur/declarative/DeclarativeEditor.java:125-127 | with `disableEvents` raised, updateCode neither serialises nor changes the text |
| Sync.UpdateCodeEmptyHolder | src/main/java/org/vaadin/artur/declarative/DeclarativeEditor.java:131 | with an empty holder, `getComponent(0)` throws and nothing changes |
| Sync.UpdateCodeWriteFails | src/main/java/org/vaadin/artur/declarative/DeclarativeEditor.java:131-137 | when Design.write throws, neither the text nor the flag changes and the call returns |
| Sync.UpdateCodeDecodeFails | src/main/java/org/vaadin/artur/declarative/DeclarativeEditor.java:131-137 | when the UTF-8 conversion throws after the flag is set, the flag stays raised and nothing else changes |
| Sync.UpdateCodeWrites | src/main/java/org/vaadin/artur/declarative/DeclarativeEditor.java:129-134 | after a successful serialise and write, the text is the serialisation of the holder's first child and the flag is down; any updateTree raised by the write was a no-op |
| Sync.UpdateCodeIdempotent | src/main/java/org/vaadin/artur/declarative/DeclarativeEditor.java:124-139 | running updateCode again right after one that returned changes nothing more |
| Sync.UpdateCodeKeepsTree | src/main/java/org/vaadin/artur/declarative/DeclarativeEditor.java:124-139 | updateCode never changes the context, the tree holder or the listeners |
| Sync.UpdateCodeKeepsValid | src/main/java/org/vaadin/artur/declarative/DeclarativeEditor.java:124-139 | updateCode preserves the invariant |
| Sync.LoadFileOutcome | src/main/java/org/vaadin/artur/declarative/DeclarativeEditor.java:96-106 | loadFile reads `<name>.html`; if that fails the text is unchanged and exactly one notification `Error loading template <name>` is added; otherwise the editor shows the template |
| Sync.LoadFileKeepsValid | src/main/java/org/vaadin/artur/declarative/DeclarativeEditor.java:96-106 | loadFile preserves the invariant |
| Sync.FragmentChangedReparses | src/main/java/org/vaadin/artur/declarative/DeclarativeEditor.java:65-68 | a fragment change reparses the editor's value after the load: after a failed load that is the old text, after one notification |
| Sync.FragmentChangedKeepsValid | src/main/java/org/vaadin/artur/declarative/DeclarativeEditor.java:65-68 | the fragment listener preserves the invariant |
| Sync.StaleListenerSerialisesCurrentTree | src/main/java/org/vaadin/artur/declarative/DeclarativeEditor.java:114-149 | after two successful reads, a notifier of the first tree still carries its listener; a value change on it runs updateCode on the current holder, which shows the second root; if the second design has no root, that value change throws IndexOutOfBounds |
| Sync.ValueChangeKeepsValid | src/main/java/org/vaadin/artur/declarative/DeclarativeEditor.java:144-149 | a value change preserves the invariant |
| Sync.InitKeepsValid | src/main/java/org/vaadin/artur/declarative/DeclarativeEditor.java:70-88 | init preserves the invariant |
| Sync.InitParsesOnce | src/main/java/org/vaadin/artur/declarative/DeclarativeEditor.java:70-88 | during init the template is loaded before the text-change listener exists, so loading leaves context, tree and listeners alone; init then reads the loaded text once: one tree more and the new context when the read succeeds, nothing changed and the exception escaping when it fails |
| Sync.DeliverKeepsValid | src/main/java/org/vaadin/artur/declarative/DeclarativeEditor.java:61-77 | every event the editor listens to preserves the invariant |
| Sync.SessionKeepsValid | src/main/java/org/vaadin/artur/declarative/DeclarativeEditor.java:61-77 | the invariant holds after any sequence of text, fragment and value-change events |
| Sync.DeliverWedged | src/main/java/org/vaadin/artur/declarative/DeclarativeEditor.java:110-112 | with the flag raised, no event changes the flag, the context, the tree or the listeners |
| Sync.WedgedSession | src/main/java/org/vaadin/artur/declarative/DeclarativeEditor.java:131-134 | once the flag is left raised, it stays raised and the tree is never replaced again, whatever events follow |
| Editor.DeclarativeEditor.constructor | src/main/java/org/vaadin/artur/declarative/DeclarativeEditor.java:50-53 | a new editor: empty text, no context, empty holder, flag down, no listeners, and the invariant |
| Editor.DeclarativeEditor.Init | src/main/java/org/vaadin/artur/declarative/DeclarativeEditor.java:70-88 | init loads the selected template, registers the text-change listener and parses the text, as `Sync.Init`; keeps the invariant |
| Editor.DeclarativeEditor.FragmentChanged | src/main/java/org/vaadin/artur/declarative/DeclarativeEditor.java:65-68 | the fragment listener has the effect of `Sync.FragmentChanged`; keeps the invariant |
| Editor.DeclarativeEditor.TextChange | src/main/java/org/vaadin/artur/declarative/DeclarativeEditor.java:74-76 | the text-change listener has the effect of `Sync.EditorChanged` on the event's text; keeps the invariant |
| Editor.DeclarativeEditor.EditorChanged | src/main/java/org/vaadin/artur/declarative/DeclarativeEditor.java:91-94 | clears the component error, then updateTree, as `Sync.EditorChanged` |
| Editor.DeclarativeEditor.LoadFile | src/main/java/org/vaadin/artur/declarative/DeclarativeEditor.java:96-106 | resolves the selector, then loads the template or shows one notification, as `Sync.LoadFile` |
| Editor.DeclarativeEditor.UpdateTree | src/main/java/org/vaadin/artur/declarative/DeclarativeEditor.java:109-122 | guard check, read, holder replacement and listener walk, as `Sync.UpdateTree` |
| Editor.DeclarativeEditor.UpdateCode | src/main/java/org/vaadin/artur/declarative/DeclarativeEditor.java:124-139 | guard check, write, flag raise, text write and flag lowering, as `Sync.UpdateCode` |
| Editor.DeclarativeEditor.SetEditorValue | src/main/java/org/vaadin/artur/declarative/DeclarativeEditor.java:133 | the editor's value becomes the text; with an echoing surface the text-change listener runs, as `Sync.SetEditorValue` |
| Editor.DeclarativeEditor.ValueChange | src/main/java/org/vaadin/artur/declarative/DeclarativeEditor.java:144-149 | a component's value-change listener runs updateCode, as `Sync.ValueChange`; keeps the invariant |
| Editor.DeclarativeEditor.AddValueChangeListeners | src/main/java/org/vaadin/artur/declarative/DeclarativeEditor.java:141-158 | adds to the listeners exactly the walk `Subscriptions` of the component and changes nothing else |
| Editor.DeclarativeEditor.AddChildListeners | src/main/java/org/vaadin/artur/declarative/DeclarativeEditor.java:152-156 | the loop over the children adds exactly the listeners of the walks of all children, in order |

## Left out

- `Servlet.java`: servlet and annotation wiring only.
- The layout built in `init` (split panel, panels, sizing, theme and widget set): UI plumbing.
  Its tree holder appears as the holder's initial empty contents.
- The internals of `Design.read` and `Design.write`: they belong to the Vaadin library.
  Both are uninterpreted fields of `Env` that can fail. The library's parse–serialise–parse
  round-trip law is its own promise and is neither assumed nor proved.
- Resource loading with `getResourceAsStream` and `IOUtils.toString` (including the default
  charset): an uninterpreted `template` lookup that may fail.
- `Notification.show`: it is modelled as appending its message to `notifications`.
- `printStackTrace` in the catch of `updateCode`: output only.
- Vaadin's event dispatch and session threading: calls are single-threaded and synchronous, as
  the code assumes. An escaped exception goes to the host's error handler, which the model does
  not cover.
- The user's typing into the text area. In the code, text the user types becomes
  `editor.getValue()`. No event of the model sets `text` that way: `TextChange` passes the
  event's text to `editorChanged` and leaves `text` alone, so a `Session` never reaches a state
  whose `text` is user-typed. No proved property depends on the value of `text` before a call.
- The widget's own change of value, before its listeners run: the tree is a value here. So
  `ValueChange` models the listener's reaction to an edit, not the edit itself.
- Listener objects hang on the widgets in the code; the model keeps them in one registry keyed
  by `Handle`. Because the invariant proves that a component carries at most one listener,
  `ValueChange` runs `updateCode` once or not at all. Vaadin's loop over a component's listeners
  is not modelled.
- Detaching the old root from the tree holder's parent chain in `removeAllComponents` is not
  observable in this code and is not modelled.
