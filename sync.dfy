/**
 * The text <-> tree synchronisation of `DeclarativeEditor`, as functions on the
 * editor's state. Each function is the meaning of one Java method: it maps the
 * state before the call to the state after it, together with how the call ended
 * (returned normally, or let an unchecked exception escape). The class in
 * editor.dfy implements the same steps imperatively and is proved against these.
 */
module Sync {
  import opened Wrappers
  import opened Components

  /** Unchecked exceptions that can escape the editor's methods. */
  datatype Fault =
    | DesignFault        // Design.read rejected the text
    | IndexOutOfBounds   // treeHolder.getComponent(0) on an empty holder

  datatype Completion = Completed | Raised(fault: Fault)

  /** The collaborators the editor calls but does not implement. */
  datatype Env = Env(
    read: string -> Result<DesignContext>,   // Design.read on the UTF-8 bytes of a text
    write: Node -> Result<Bytes>,            // Design.write; Failure is its IOException
    decode: Bytes -> Result<string>,         // ByteArrayOutputStream.toString("UTF-8")
    template: string -> Option<string>,      // a resource's text, None when it cannot be read
    echo: bool)                              // editor.setValue reports itself as a text change

  /** The editor's fields. `trees` counts the designs read so far: it numbers the trees so
      that nodes of different reads are different components. */
  datatype State = State(
    text: string,                  // editor.getValue()
    componentError: bool,          // editor.getComponentError() != null
    dc: Option<DesignContext>,     // dc, null until the first successful read
    holder: seq<Node>,             // the components of treeHolder
    disableEvents: bool,
    trees: nat,
    listeners: multiset<Handle>,   // the value-change listeners registered on every component
    notifications: seq<string>,    // the messages shown with Notification.show
    textListener: bool)            // init has registered the editor's text-change listener

  datatype Step = Step(state: State, completion: Completion)

  /** The editor as it is constructed, before `init` runs. */
  function Initial(): State
  {
    State("", false, None, [], false, 0, multiset{}, [], false)
  }

  /** What treeHolder shows for a design context: its root, if it has one. */
  function Rendered(dc: Option<DesignContext>): seq<Node>
  {
    if dc.Some? && dc.value.root.Some? then [dc.value.root.value] else []
  }

  /** The listeners a read of `ctx` as tree number `tree` registers. */
  function NewListeners(ctx: DesignContext, tree: nat): multiset<Handle>
  {
    if ctx.root.Some? then Subscriptions(ctx.root.value, tree, []) else multiset{}
  }

  /** The template `loadFile` resolves a URI fragment to. */
  function TemplateName(selector: Option<string>): (file: string)
    ensures file != ""
    ensures selector == Some(file) || file == "default"
    ensures selector.Some? && selector.value != "" ==> file == selector.value
  {
    if selector.None? || selector.value == "" then "default" else selector.value
  }

  function LoadError(file: string): string
  {
    "Error loading template " + file
  }

  // ---- the editor's methods ----

  /** updateTree(text) */
  function UpdateTree(env: Env, st: State, text: string): Step
  {
    if st.disableEvents then Step(st, Completed)
    else
      match env.read(text)
      case Failure(_) => Step(st, Raised(DesignFault))
      case Success(ctx) =>
        var tree := st.trees + 1;
        Step(st.(dc := Some(ctx), holder := Rendered(Some(ctx)), trees := tree,
                 listeners := st.listeners + NewListeners(ctx, tree)),
             Completed)
  }

  /** editorChanged(text) */
  function EditorChanged(env: Env, st: State, text: string): Step
  {
    UpdateTree(env, st.(componentError := false), text)
  }

  /** editor.setValue(text): the text changes, and if the surface echoes writes and the
      text-change listener is registered, that listener runs editorChanged synchronously. */
  function SetEditorValue(env: Env, st: State, text: string): Step
  {
    var written := st.(text := text);
    if env.echo && st.textListener then EditorChanged(env, written, text)
    else Step(written, Completed)
  }

  /** updateCode() */
  function UpdateCode(env: Env, st: State): Step
  {
    if st.disableEvents then Step(st, Completed)
    else if |st.holder| == 0 then Step(st, Raised(IndexOutOfBounds))
    else
      match env.write(st.holder[0])
      case Failure(_) => Step(st, Completed)
      case Success(bytes) =>
        var guarded := st.(disableEvents := true);
        match env.decode(bytes)
        case Failure(_) => Step(guarded, Completed)
        case Success(s) =>
          var w := SetEditorValue(env, guarded, s);
          if w.completion.Raised? then w
          else Step(w.state.(disableEvents := false), Completed)
  }

  /** loadFile(selector): every exception is caught, so it always returns normally. */
  function LoadFile(env: Env, st: State, selector: Option<string>): State
  {
    var file := TemplateName(selector);
    match env.template(file + ".html")
    case None => st.(notifications := st.notifications + [LoadError(file)])
    case Some(content) =>
      var w := SetEditorValue(env, st, content);
      if w.completion.Raised? then w.state.(notifications := w.state.notifications + [LoadError(file)])
      else w.state
  }

  /** The URI-fragment listener: load the template, then reparse the editor's value. */
  function FragmentChanged(env: Env, st: State, fragment: Option<string>): Step
  {
    var loaded := LoadFile(env, st, fragment);
    EditorChanged(env, loaded, loaded.text)
  }

  /** A value change on component `node`: its listener, if it has one, runs updateCode. */
  function ValueChange(env: Env, st: State, node: Handle): Step
  {
    if node in st.listeners then UpdateCode(env, st) else Step(st, Completed)
  }

  /** init(request): load the selected template, register the text-change listener, parse. */
  function Init(env: Env, st: State, fragment: Option<string>): Step
  {
    var loaded := LoadFile(env, st, fragment).(textListener := true);
    UpdateTree(env, loaded, loaded.text)
  }

  // ---- the invariant ----

  /** The number of listeners the current tree's node at `p` should carry. */
  function Expected(st: State, p: Path): nat
  {
    if |st.holder| == 1 && Subscribes(st.holder[0], p) then 1 else 0
  }

  /** treeHolder shows exactly the root of the last design read; every listener belongs to a
      tree already read; no component carries two listeners; and the current tree's listeners
      are exactly those the walk gives its root. */
  ghost predicate Valid(st: State)
  {
    && st.holder == Rendered(st.dc)
    && (st.trees == 0 <==> st.dc.None?)
    && (forall h | h in st.listeners :: 1 <= h.tree <= st.trees)
    && (forall h | h in st.listeners :: st.listeners[h] == 1)
    && (forall p: Path :: st.listeners[Handle(st.trees, p)] == Expected(st, p))
  }

  /** Valid speaks only of the context, the tree and the listeners. */
  lemma SameTreeSameValidity(st: State, st': State)
    requires Valid(st)
    requires st'.dc == st.dc && st'.holder == st.holder && st'.trees == st.trees
    requires st'.listeners == st.listeners
    ensures Valid(st')
  {
  }

  lemma InitialIsValid()
    ensures Valid(Initial())
  {
    forall p: Path ensures Initial().listeners[Handle(0, p)] == Expected(Initial(), p) { }
  }

  /** The listeners a read registers are all new: they belong to tree `tree`, one per
      reachable notifier of the new root. */
  lemma NewListenersExact(ctx: DesignContext, tree: nat, h: Handle)
    ensures NewListeners(ctx, tree)[h]
         == if h.tree == tree && ctx.root.Some? && Subscribes(ctx.root.value, h.path) then 1 else 0
  {
    if ctx.root.Some? {
      SubscriptionsExact(ctx.root.value, tree, h);
    }
  }

  // ---- updateTree ----

  /** With the guard raised, updateTree changes nothing. */
  lemma UpdateTreeGuarded(env: Env, st: State, text: string)
    requires st.disableEvents
    ensures UpdateTree(env, st, text) == Step(st, Completed)
  {
  }

  /** When Design.read throws, the exception escapes before dc or treeHolder is touched. */
  lemma UpdateTreeReadFails(env: Env, st: State, text: string)
    requires !st.disableEvents && env.read(text).Failure?
    ensures UpdateTree(env, st, text) == Step(st, Raised(DesignFault))
  {
  }

  /** A successful read replaces the context wholesale and makes treeHolder show exactly the
      new root (or nothing); the listeners of earlier trees stay registered, and the new tree
      gets one listener on each reachable notifier. The editor's text is not touched. */
  lemma UpdateTreeReplaces(env: Env, st: State, text: string)
    requires !st.disableEvents && env.read(text).Success?
    ensures var ctx := env.read(text).value;
            var r := UpdateTree(env, st, text);
            && r.completion == Completed
            && r.state.dc == Some(ctx)
            && r.state.holder == (if ctx.root.Some? then [ctx.root.value] else [])
            && r.state.trees == st.trees + 1
            && (forall h: Handle | h.tree <= st.trees :: r.state.listeners[h] == st.listeners[h])
            && (forall p: Path :: r.state.listeners[Handle(r.state.trees, p)]
                                == st.listeners[Handle(r.state.trees, p)]
                                 + (if ctx.root.Some? && Subscribes(ctx.root.value, p) then 1 else 0))
            && r.state.text == st.text && r.state.disableEvents == st.disableEvents
            && r.state.notifications == st.notifications
  {
    var ctx := env.read(text).value;
    var tree := st.trees + 1;
    forall h: Handle | h.tree <= st.trees
      ensures UpdateTree(env, st, text).state.listeners[h] == st.listeners[h]
    {
      NewListenersExact(ctx, tree, h);
    }
    forall p: Path
      ensures UpdateTree(env, st, text).state.listeners[Handle(tree, p)]
           == st.listeners[Handle(tree, p)] + (if ctx.root.Some? && Subscribes(ctx.root.value, p) then 1 else 0)
    {
      NewListenersExact(ctx, tree, Handle(tree, p));
    }
  }

  lemma UpdateTreeKeepsValid(env: Env, st: State, text: string)
    requires Valid(st)
    ensures Valid(UpdateTree(env, st, text).state)
  {
    if !st.disableEvents && env.read(text).Success? {
      var ctx := env.read(text).value;
      var tree := st.trees + 1;
      var r := UpdateTree(env, st, text).state;
      assert r.listeners == st.listeners + NewListeners(ctx, tree);
      forall h | h in r.listeners
        ensures 1 <= h.tree <= r.trees && r.listeners[h] == 1
      {
        NewListenersExact(ctx, tree, h);
      }
      forall p: Path
        ensures r.listeners[Handle(r.trees, p)] == Expected(r, p)
      {
        NewListenersExact(ctx, tree, Handle(tree, p));
      }
    }
  }

  // ---- editorChanged ----

  /** editorChanged clears the component error and then acts on the tree as updateTree does. */
  lemma EditorChangedClearsError(env: Env, st: State, text: string)
    ensures var r := EditorChanged(env, st, text);
            var u := UpdateTree(env, st, text);
            && !r.state.componentError
            && r.completion == u.completion
            && r.state.dc == u.state.dc && r.state.holder == u.state.holder
            && r.state.listeners == u.state.listeners
  {
  }

  lemma EditorChangedKeepsValid(env: Env, st: State, text: string)
    requires Valid(st)
    ensures Valid(EditorChanged(env, st, text).state)
  {
    UpdateTreeKeepsValid(env, st.(componentError := false), text);
  }

  lemma SetEditorValueKeepsValid(env: Env, st: State, text: string)
    requires Valid(st)
    ensures Valid(SetEditorValue(env, st, text).state)
  {
    EditorChangedKeepsValid(env, st.(text := text), text);
  }

  // ---- updateCode ----

  /** With the guard raised, updateCode neither serialises nor writes. */
  lemma UpdateCodeGuarded(env: Env, st: State)
    requires st.disableEvents
    ensures UpdateCode(env, st) == Step(st, Completed)
  {
  }

  /** With nothing in treeHolder, getComponent(0) throws before anything changes. */
  lemma UpdateCodeEmptyHolder(env: Env, st: State)
    requires !st.disableEvents && st.holder == []
    ensures UpdateCode(env, st) == Step(st, Raised(IndexOutOfBounds))
  {
  }

  /** When Design.write throws its IOException, it is caught before the flag is set:
      neither the text nor the flag changes. */
  lemma UpdateCodeWriteFails(env: Env, st: State)
    requires !st.disableEvents && st.holder != [] && env.write(st.holder[0]).Failure?
    ensures UpdateCode(env, st) == Step(st, Completed)
  {
  }

  /** When the UTF-8 conversion throws, the flag has already been set and is never cleared:
      the exception is caught and the editor is left with its guard raised. */
  lemma UpdateCodeDecodeFails(env: Env, st: State)
    requires !st.disableEvents && st.holder != [] && env.write(st.holder[0]).Success?
    requires env.decode(env.write(st.holder[0]).value).Failure?
    ensures UpdateCode(env, st) == Step(st.(disableEvents := true), Completed)
  {
  }

  /** A successful serialise and write: the editor shows the serialisation of treeHolder's
      first child, the guard is down again, and the text change the write may raise reparses
      nothing, so the context, the tree and the listeners are those before the call. */
  lemma UpdateCodeWrites(env: Env, st: State)
    requires !st.disableEvents && st.holder != [] && env.write(st.holder[0]).Success?
    requires env.decode(env.write(st.holder[0]).value).Success?
    ensures var r := UpdateCode(env, st);
            && r.completion == Completed
            && r.state.text == env.decode(env.write(st.holder[0]).value).value
            && !r.state.disableEvents
            && r.state.dc == st.dc && r.state.holder == st.holder
            && r.state.trees == st.trees && r.state.listeners == st.listeners
            && r.state.notifications == st.notifications
            && r.state.componentError == (st.componentError && !(env.echo && st.textListener))
  {
  }

  /** Serialising again right after a serialisation changes nothing: the write-back cannot
      start a loop or a drift. */
  lemma UpdateCodeIdempotent(env: Env, st: State)
    requires UpdateCode(env, st).completion == Completed
    ensures UpdateCode(env, UpdateCode(env, st).state) == UpdateCode(env, st)
  {
  }

  /** updateCode changes only the text, the component error and the guard. */
  lemma UpdateCodeKeepsTree(env: Env, st: State)
    ensures var r := UpdateCode(env, st).state;
            r.dc == st.dc && r.holder == st.holder && r.trees == st.trees && r.listeners == st.listeners
  {
  }

  lemma UpdateCodeKeepsValid(env: Env, st: State)
    requires Valid(st)
    ensures Valid(UpdateCode(env, st).state)
  {
    UpdateCodeKeepsTree(env, st);
    SameTreeSameValidity(st, UpdateCode(env, st).state);
  }

  // ---- loadFile and the fragment listener ----

  /** loadFile reads `<name>.html`, where an absent or empty selector names `default`. When the
      template cannot be read the text is unchanged and one notification is shown; otherwise the
      editor shows the template. */
  lemma LoadFileOutcome(env: Env, st: State, selector: Option<string>)
    ensures var file := TemplateName(selector);
            var r := LoadFile(env, st, selector);
            && (env.template(file + ".html").None? ==>
                  r == st.(notifications := st.notifications + ["Error loading template " + file]))
            && (env.template(file + ".html").Some? ==> r.text == env.template(file + ".html").value)
            && (env.template(file + ".html").Some? && !(env.echo && st.textListener) ==>
                  r == st.(text := env.template(file + ".html").value))
  {
  }

  /** An absent selector, an empty one and "default" all make loadFile do the same thing. */
  lemma DefaultTemplate(env: Env, st: State)
    ensures LoadFile(env, st, None) == LoadFile(env, st, Some(""))
    ensures LoadFile(env, st, Some("")) == LoadFile(env, st, Some("default"))
  {
  }

  lemma LoadFileKeepsValid(env: Env, st: State, selector: Option<string>)
    requires Valid(st)
    ensures Valid(LoadFile(env, st, selector))
  {
    var file := TemplateName(selector);
    var r := LoadFile(env, st, selector);
    match env.template(file + ".html")
    case None =>
      SameTreeSameValidity(st, r);
    case Some(content) =>
      var w := SetEditorValue(env, st, content);
      SetEditorValueKeepsValid(env, st, content);
      SameTreeSameValidity(w.state, r);
  }

  /** A fragment change reparses whatever the editor holds after loading: when the template
      cannot be read, that is the old text, after one notification. */
  lemma FragmentChangedReparses(env: Env, st: State, fragment: Option<string>)
    ensures var file := TemplateName(fragment);
            env.template(file + ".html").None? ==>
              FragmentChanged(env, st, fragment)
              == EditorChanged(env, st.(notifications := st.notifications + [LoadError(file)]), st.text)
    ensures var file := TemplateName(fragment);
            env.template(file + ".html").Some? && !(env.echo && st.textListener) ==>
              var content := env.template(file + ".html").value;
              FragmentChanged(env, st, fragment) == EditorChanged(env, st.(text := content), content)
  {
  }

  lemma FragmentChangedKeepsValid(env: Env, st: State, fragment: Option<string>)
    requires Valid(st)
    ensures Valid(FragmentChanged(env, st, fragment).state)
  {
    LoadFileKeepsValid(env, st, fragment);
    var loaded := LoadFile(env, st, fragment);
    EditorChangedKeepsValid(env, loaded, loaded.text);
  }

  // ---- value changes ----

  /** A read does not detach the listeners of the tree it discards. After two successful
      reads, a notifier of the first tree still carries its listener; a value change on it
      serialises the component now in treeHolder, which is the second read's root; and when
      the second design has no root, that value change ends in getComponent(0) throwing. */
  lemma StaleListenerSerialisesCurrentTree(env: Env, st: State, t1: string, t2: string, p: Path)
    requires Valid(st) && !st.disableEvents
    requires env.read(t1).Success? && env.read(t1).value.root.Some?
    requires Subscribes(env.read(t1).value.root.value, p)
    requires env.read(t2).Success?
    ensures var s2 := UpdateTree(env, UpdateTree(env, st, t1).state, t2).state;
            var h := Handle(st.trees + 1, p);
            && h in s2.listeners && h.tree < s2.trees
            && ValueChange(env, s2, h) == UpdateCode(env, s2)
            && s2.holder == Rendered(Some(env.read(t2).value))
    ensures var s2 := UpdateTree(env, UpdateTree(env, st, t1).state, t2).state;
            env.read(t2).value.root.None? ==>
              ValueChange(env, s2, Handle(st.trees + 1, p)) == Step(s2, Raised(IndexOutOfBounds))
  {
    var s1 := UpdateTree(env, st, t1).state;
    UpdateTreeKeepsValid(env, st, t1);
    UpdateTreeReplaces(env, st, t1);
    UpdateTreeReplaces(env, s1, t2);
    assert st.listeners[Handle(st.trees + 1, p)] == 0;
  }

  lemma ValueChangeKeepsValid(env: Env, st: State, node: Handle)
    requires Valid(st)
    ensures Valid(ValueChange(env, st, node).state)
  {
    UpdateCodeKeepsValid(env, st);
  }

  lemma InitKeepsValid(env: Env, st: State, fragment: Option<string>)
    requires Valid(st)
    ensures Valid(Init(env, st, fragment).state)
  {
    LoadFileKeepsValid(env, st, fragment);
    var loaded := LoadFile(env, st, fragment).(textListener := true);
    UpdateTreeKeepsValid(env, loaded, loaded.text);
  }

  /** Before the text-change listener exists, loading the first template parses nothing;
      init then parses the loaded text exactly once (unless the guard is raised): one tree
      more when the read succeeds, none when it throws. */
  lemma InitParsesOnce(env: Env, st: State, fragment: Option<string>)
    requires !st.textListener
    ensures var loaded := LoadFile(env, st, fragment);
            loaded.dc == st.dc && loaded.holder == st.holder && loaded.listeners == st.listeners
            && loaded.trees == st.trees
    ensures var loaded := LoadFile(env, st, fragment);
            var r := Init(env, st, fragment);
            !st.disableEvents && env.read(loaded.text).Success? ==>
              r.completion == Completed && r.state.trees == st.trees + 1
              && r.state.dc == Some(env.read(loaded.text).value)
    ensures var loaded := LoadFile(env, st, fragment);
            var r := Init(env, st, fragment);
            !st.disableEvents && env.read(loaded.text).Failure? ==>
              r.completion == Raised(DesignFault) && r.state.trees == st.trees && r.state.dc == st.dc
  {
  }

  // ---- sessions: one event at a time ----

  /** The events the host delivers to the editor once init has run. */
  datatype Event =
    | TextChanged(text: string)
    | FragmentChange(fragment: Option<string>)
    | NodeValueChanged(node: Handle)

  function Deliver(env: Env, st: State, e: Event): Step
  {
    match e
    case TextChanged(text) => EditorChanged(env, st, text)
    case FragmentChange(fragment) => FragmentChanged(env, st, fragment)
    case NodeValueChanged(node) => ValueChange(env, st, node)
  }

  /** The state after the host delivers `events` in order; an escaping exception ends that
      event's handling, and the next event is delivered. */
  function Session(env: Env, st: State, events: seq<Event>): State
    decreases |events|
  {
    if events == [] then st else Session(env, Deliver(env, st, events[0]).state, events[1..])
  }

  lemma DeliverKeepsValid(env: Env, st: State, e: Event)
    requires Valid(st)
    ensures Valid(Deliver(env, st, e).state)
  {
    match e
    case TextChanged(text) => EditorChangedKeepsValid(env, st, text);
    case FragmentChange(fragment) => FragmentChangedKeepsValid(env, st, fragment);
    case NodeValueChanged(node) => ValueChangeKeepsValid(env, st, node);
  }

  /** The invariant holds after any sequence of events. */
  lemma {:induction false} SessionKeepsValid(env: Env, st: State, events: seq<Event>)
    requires Valid(st)
    ensures Valid(Session(env, st, events))
    decreases |events|
  {
    if events != [] {
      DeliverKeepsValid(env, st, events[0]);
      SessionKeepsValid(env, Deliver(env, st, events[0]).state, events[1..]);
    }
  }

  /** With the guard raised, an event may change the text and the notifications, but not the
      guard, the context, the tree or the listeners. */
  lemma DeliverWedged(env: Env, st: State, e: Event)
    requires st.disableEvents
    ensures var r := Deliver(env, st, e).state;
            && r.disableEvents && r.dc == st.dc && r.holder == st.holder
            && r.trees == st.trees && r.listeners == st.listeners
  {
    match e
    case TextChanged(text) =>
    case FragmentChange(fragment) =>
      var loaded := LoadFile(env, st, fragment);
      assert loaded.disableEvents && loaded.dc == st.dc && loaded.holder == st.holder
          && loaded.trees == st.trees && loaded.listeners == st.listeners;
    case NodeValueChanged(node) =>
  }

  /** Once the guard is left raised, no event lowers it again, and the context, the tree
      and the listeners never change again: later text edits and loads are never parsed. */
  lemma {:induction false} WedgedSession(env: Env, st: State, events: seq<Event>)
    requires st.disableEvents
    ensures var r := Session(env, st, events);
            && r.disableEvents && r.dc == st.dc && r.holder == st.holder
            && r.trees == st.trees && r.listeners == st.listeners
    decreases |events|
  {
    if events != [] {
      DeliverWedged(env, st, events[0]);
      WedgedSession(env, Deliver(env, st, events[0]).state, events[1..]);
    }
  }
}
