/**
 * The `DeclarativeEditor` UI: the editor's text, the parse context, the holder of the
 * rendered tree and the re-entrancy guard are fields that its methods update step by
 * step. Each method is proved to have the effect the corresponding function of `Sync`
 * gives it, and to keep `Sync.Valid`.
 */
module Editor {
  import opened Wrappers
  import opened Components
  import Sync

  class DeclarativeEditor {
    const env: Sync.Env

    var editorValue: string
    var componentError: bool
    var dc: Option<DesignContext>
    var treeHolder: seq<Node>
    var disableEvents: bool
    var trees: nat
    var listeners: multiset<Handle>
    var notifications: seq<string>
    var textListenerAttached: bool

    /** The editor's state as a value. */
    ghost function Snap(): Sync.State
      reads this
    {
      Sync.State(editorValue, componentError, dc, treeHolder, disableEvents, trees, listeners,
                 notifications, textListenerAttached)
    }

    ghost predicate Valid()
      reads this
    {
      Sync.Valid(Snap())
    }

    /** A new UI with an empty editor and an empty tree holder, before init. */
    constructor (env: Sync.Env)
      ensures this.env == env && Snap() == Sync.Initial() && Valid()
    {
      this.env := env;
      editorValue := "";
      componentError := false;
      dc := None;
      treeHolder := [];
      disableEvents := false;
      trees := 0;
      listeners := multiset{};
      notifications := [];
      textListenerAttached := false;
      new;
      Sync.InitialIsValid();
    }

    /** init: load the template the URI fragment selects, register the text-change
        listener, and parse the editor's value. The host runs it once. */
    method Init(fragment: Option<string>) returns (c: Sync.Completion)
      requires Valid() && !textListenerAttached
      modifies this
      ensures Sync.Step(Snap(), c) == Sync.Init(env, old(Snap()), fragment)
      ensures Valid()
    {
      ghost var st := Snap();
      LoadFile(fragment);
      textListenerAttached := true;
      c := UpdateTree(editorValue);
      Sync.InitKeepsValid(env, st, fragment);
    }

    /** The URI-fragment listener. */
    method FragmentChanged(fragment: Option<string>) returns (c: Sync.Completion)
      requires Valid()
      modifies this
      ensures Sync.Step(Snap(), c) == Sync.FragmentChanged(env, old(Snap()), fragment)
      ensures Valid()
    {
      ghost var st := Snap();
      LoadFile(fragment);
      c := EditorChanged(editorValue);
      Sync.FragmentChangedKeepsValid(env, st, fragment);
    }

    /** The editor's text-change listener. */
    method TextChange(text: string) returns (c: Sync.Completion)
      requires Valid()
      modifies this
      ensures Sync.Step(Snap(), c) == Sync.EditorChanged(env, old(Snap()), text)
      ensures Valid()
    {
      ghost var st := Snap();
      c := EditorChanged(text);
      Sync.EditorChangedKeepsValid(env, st, text);
    }

    method EditorChanged(newText: string) returns (c: Sync.Completion)
      modifies this
      ensures Sync.Step(Snap(), c) == Sync.EditorChanged(env, old(Snap()), newText)
    {
      componentError := false;
      c := UpdateTree(newText);
    }

    method LoadFile(selector: Option<string>)
      modifies this
      ensures Snap() == Sync.LoadFile(env, old(Snap()), selector)
    {
      var file: string;
      if selector.None? || selector.value == "" {
        file := "default";
      } else {
        file := selector.value;
      }
      var content := env.template(file + ".html");
      if content.None? {
        notifications := notifications + [Sync.LoadError(file)];
      } else {
        var c := SetEditorValue(content.value);
        if c.Raised? {
          notifications := notifications + [Sync.LoadError(file)];
        }
      }
    }

    method UpdateTree(text: string) returns (c: Sync.Completion)
      modifies this
      ensures Sync.Step(Snap(), c) == Sync.UpdateTree(env, old(Snap()), text)
    {
      if disableEvents {
        return Sync.Completed;
      }
      var read := env.read(text);
      if read.Failure? {
        return Sync.Raised(Sync.DesignFault);
      }
      var ctx := read.value;
      dc := Some(ctx);
      trees := trees + 1;
      treeHolder := Sync.Rendered(dc);
      if ctx.root.Some? {
        AddValueChangeListeners(ctx.root.value, []);
      }
      c := Sync.Completed;
    }

    method UpdateCode() returns (c: Sync.Completion)
      modifies this
      ensures Sync.Step(Snap(), c) == Sync.UpdateCode(env, old(Snap()))
    {
      if disableEvents {
        return Sync.Completed;
      }
      if |treeHolder| == 0 {
        return Sync.Raised(Sync.IndexOutOfBounds);
      }
      c := Sync.Completed;
      var o := env.write(treeHolder[0]);
      if o.Success? {
        disableEvents := true;
        var s := env.decode(o.value);
        if s.Success? {
          c := SetEditorValue(s.value);
          if c.Completed? {
            disableEvents := false;
          }
        }
      }
    }

    /** editor.setValue(text), with the text-change listener run synchronously when the
        surface echoes writes. */
    method SetEditorValue(text: string) returns (c: Sync.Completion)
      modifies this
      ensures Sync.Step(Snap(), c) == Sync.SetEditorValue(env, old(Snap()), text)
    {
      editorValue := text;
      c := Sync.Completed;
      if env.echo && textListenerAttached {
        c := EditorChanged(text);
      }
    }

    /** The listener a component of the rendered tree calls on a value change. */
    method ValueChange(node: Handle) returns (c: Sync.Completion)
      requires Valid()
      modifies this
      ensures Sync.Step(Snap(), c) == Sync.ValueChange(env, old(Snap()), node)
      ensures Valid()
    {
      ghost var st := Snap();
      c := Sync.Completed;
      if node in listeners {
        c := UpdateCode();
      }
      Sync.ValueChangeKeepsValid(env, st, node);
    }

    /** addValueChangeListeners(component), for the component at `at` in tree `trees`. */
    method AddValueChangeListeners(component: Node, at: Path)
      modifies this`listeners
      ensures listeners == old(listeners) + Subscriptions(component, trees, at)
      decreases component, 1
    {
      if component.notifier {
        listeners := listeners + multiset{Handle(trees, at)};
      }
      if component.container {
        AddChildListeners(component, at);
      }
    }

    /** The loop of addValueChangeListeners over the children of a component that has them. */
    method AddChildListeners(component: Node, at: Path)
      modifies this`listeners
      ensures listeners == old(listeners) + ChildSubscriptions(component, trees, at, |component.children|)
      decreases component, 0
    {
      var i := 0;
      while i < |component.children|
        invariant i <= |component.children|
        invariant listeners == old(listeners) + ChildSubscriptions(component, trees, at, i)
      {
        AddValueChangeListeners(component.children[i], at + [i]);
        i := i + 1;
      }
    }
  }
}
