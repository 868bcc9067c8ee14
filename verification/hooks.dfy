/**
 The hook registry of `src/hooks.rs`. A hook binds a key-combination pattern to
 an action string; the `HookManager` keeps hooks by name and, for each key,
 scans them until one consumes the key. What an action does (running
 `/bin/sh`, printing, reading the clock) is replaced by the outcome it reports:
 consumed, not consumed, or failed. Whether spawning a command succeeds is a
 parameter of the model.
 */
module Hooks {
  import opened Wrappers
  import opened Terminal

  /** `HookConfig` from `src/config.rs`. */
  datatype HookConfig = HookConfig(
    name: string,
    keyCombination: string,
    action: string,
    description: Option<string>,
    enabled: bool)

  datatype ActionType = Command(command: string) | Function(funcName: string) | Builtin(builtinName: string)

  datatype Hook = Hook(config: HookConfig, action: ActionType)

  /** What `Hook::execute` reports: `Ok(true)`, `Ok(false)` or `Err(_)`. */
  datatype Outcome = Consumed | NotConsumed | Failed

  // ---------------------------------------------------------------------------
  // Actions.
  // ---------------------------------------------------------------------------

  predicate HasActionPrefix(s: string)
  {
    "cmd:" <= s || "fn:" <= s || "builtin:" <= s
  }

  /** `Hook::parse_action`: a `cmd:`, `fn:` or `builtin:` prefix picks the kind and the rest
      is the argument; a string with none of these prefixes is a command as a whole. */
  function ParseAction(s: string): (a: ActionType)
    ensures a.Command? ==> s == "cmd:" + a.command || (s == a.command && !HasActionPrefix(s))
    ensures a.Function? ==> s == "fn:" + a.funcName
    ensures a.Builtin? ==> s == "builtin:" + a.builtinName
    ensures !HasActionPrefix(s) ==> a == Command(s)
  {
    if "cmd:" <= s then Command(s[4..])
    else if "fn:" <= s then Function(s[3..])
    else if "builtin:" <= s then Builtin(s[8..])
    else Command(s)
  }

  /** The action string with an explicit prefix that parses back to `a`. */
  function ActionString(a: ActionType): string
  {
    match a
    case Command(c) => "cmd:" + c
    case Function(f) => "fn:" + f
    case Builtin(b) => "builtin:" + b
  }

  /** Parsing inverts writing an action with its prefix. */
  lemma ParseActionString(a: ActionType)
    ensures ParseAction(ActionString(a)) == a
  {
    match a
    case Command(c) =>
      assert ("cmd:" + c)[4..] == c;
    case Function(f) =>
      assert !("cmd:" <= "fn:" + f) by { assert ("fn:" + f)[0] == 'f'; }
      assert ("fn:" + f)[3..] == f;
    case Builtin(b) =>
      var s := "builtin:" + b;
      assert !("cmd:" <= s) && !("fn:" <= s) by { assert s[0] == 'b'; }
      assert s[8..] == b;
  }

  /** Writing a parsed action gives back the original string when it had a prefix, and adds
      the `cmd:` prefix when it had none. */
  lemma ActionStringParse(s: string)
    ensures HasActionPrefix(s) ==> ActionString(ParseAction(s)) == s
    ensures !HasActionPrefix(s) ==> ActionString(ParseAction(s)) == "cmd:" + s
  {
  }

  /** The action-name tests of the repository. */
  lemma ParseActionExamples()
    ensures ParseAction("cmd:ls -la") == Command("ls -la")
    ensures ParseAction("fn:show_help") == Function("show_help")
    ensures ParseAction("builtin:clear_screen") == Builtin("clear_screen")
    ensures ParseAction("echo test") == Command("echo test")
  {
    PrefixedExample("cmd:", "ls -la", "cmd:ls -la");
    PrefixedExample("fn:", "show_help", "fn:show_help");
    PrefixedExample("builtin:", "clear_screen", "builtin:clear_screen");
    NoPrefixIsCommand("echo test");
  }

  lemma PrefixedExample(prefix: string, arg: string, s: string)
    requires prefix in {"cmd:", "fn:", "builtin:"} && s == prefix + arg
    ensures prefix == "cmd:" ==> ParseAction(s) == Command(arg)
    ensures prefix == "fn:" ==> ParseAction(s) == Function(arg)
    ensures prefix == "builtin:" ==> ParseAction(s) == Builtin(arg)
  {
    if prefix == "cmd:" {
      ParseActionString(Command(arg));
    } else if prefix == "fn:" {
      ParseActionString(Function(arg));
    } else {
      ParseActionString(Builtin(arg));
    }
  }

  lemma NoPrefixIsCommand(s: string)
    requires |s| > 0 && s[0] !in "cfb"
    ensures ParseAction(s) == Command(s)
  {
    assert !HasActionPrefix(s) by {
      assert !("cmd:" <= s) && !("fn:" <= s) && !("builtin:" <= s);
    }
  }

  /** `Hook::new`. */
  function NewHook(config: HookConfig): (h: Hook)
    ensures h.config == config
    ensures h.action == ParseAction(config.action)
  {
    Hook(config, ParseAction(config.action))
  }

  /** `Hook::matches`: only an enabled hook can match. */
  predicate Matches(h: Hook, key: KeyInput)
    ensures Matches(h, key) ==> h.config.enabled && Describable(key)
  {
    h.config.enabled && MatchesPattern(key, h.config.keyCombination)
  }

  /** The hook-matching test of the repository: an enabled "ctrl+;" hook whose action is
      "echo test" runs that command and matches ctrl+';'. */
  lemma HookMatchingExample(description: Option<string>)
    ensures NewHook(HookConfig("test", "ctrl+;", "echo test", description, true)).action == Command("echo test")
    ensures Matches(NewHook(HookConfig("test", "ctrl+;", "echo test", description, true)), NewKeyInput(Char(';'), Ctrl))
  {
    SemicolonPatternExample();
    NoPrefixIsCommand("echo test");
  }

  /** Switching a hook off makes it match nothing; switching it on makes it match exactly
      the keys its pattern matches. */
  lemma EnabledFlagGatesMatching(h: Hook, key: KeyInput)
    ensures !Matches(h.(config := h.config.(enabled := false)), key)
    ensures Matches(h.(config := h.config.(enabled := true)), key) <==> MatchesPattern(key, h.config.keyCombination)
    ensures Matches(h, key) ==> h.config.enabled
  {
  }

  const ConsumingFunctions: set<string> := {"show_help", "show_time"}
  const ConsumingBuiltins: set<string> := {"clear_screen", "show_config"}

  /** `Hook::execute` reduced to its outcome. A command consumes the key whenever its process
      could be spawned, whatever the command's exit status, and fails otherwise; a named
      function or builtin consumes only when it is one the code implements. */
  function Execute(h: Hook, key: KeyInput, spawns: string -> bool): (r: Outcome)
    ensures r == Failed <==> h.action.Command? && !spawns(h.action.command)
    ensures h.action.Command? ==> r != NotConsumed
    ensures h.action.Function? ==> (r == Consumed <==> h.action.funcName in ConsumingFunctions)
    ensures h.action.Builtin? ==> (r == Consumed <==> h.action.builtinName in ConsumingBuiltins)
  {
    match h.action
    case Command(cmd) => if spawns(cmd) then Consumed else Failed
    case Function(name) =>
      if name == "show_help" then Consumed
      else if name == "show_time" then Consumed
      else NotConsumed
    case Builtin(name) =>
      if name == "clear_screen" then Consumed
      else if name == "show_config" then Consumed
      else if name == "toggle_hook" then NotConsumed
      else NotConsumed
  }

  // ---------------------------------------------------------------------------
  // The registry.
  // ---------------------------------------------------------------------------

  datatype HookManager = HookManager(hooks: map<string, Hook>)

  const EmptyManager := HookManager(map[])

  /** Every hook is stored under its own name, and its action is the parse of its action
      string. */
  predicate Valid(m: HookManager)
  {
    forall n :: n in m.hooks ==> m.hooks[n].config.name == n && m.hooks[n].action == ParseAction(m.hooks[n].config.action)
  }

  /** `HookManager::get_hook`. */
  function GetHook(m: HookManager, name: string): (r: Option<Hook>)
    ensures r.Some? <==> name in m.hooks
    ensures r.Some? ==> r.value == m.hooks[name]
  {
    if name in m.hooks then Some(m.hooks[name]) else None
  }

  /** `HookManager::add_hook`: stores a hook under the config's name, replacing any hook of
      that name and leaving the others alone. */
  function AddHook(m: HookManager, config: HookConfig): (m': HookManager)
    ensures m'.hooks.Keys == m.hooks.Keys + {config.name}
    ensures GetHook(m', config.name) == Some(NewHook(config))
    ensures forall n :: n != config.name ==> GetHook(m', n) == GetHook(m, n)
    ensures Valid(m) ==> Valid(m')
  {
    HookManager(m.hooks[config.name := NewHook(config)])
  }

  /** `HookManager::remove_hook`: reports whether the name was present; afterwards it is
      absent and every other hook is as before. */
  function RemoveHook(m: HookManager, name: string): (r: (HookManager, bool))
    ensures r.1 <==> name in m.hooks
    ensures r.0.hooks.Keys == m.hooks.Keys - {name}
    ensures GetHook(r.0, name) == None
    ensures forall n :: n != name ==> GetHook(r.0, n) == GetHook(m, n)
    ensures Valid(m) ==> Valid(r.0)
  {
    (HookManager(m.hooks - {name}), name in m.hooks)
  }

  /** `HookManager::enable_hook`: reports whether the name exists, and changes nothing but
      that hook's enabled flag. */
  function EnableHook(m: HookManager, name: string, enabled: bool): (r: (HookManager, bool))
    ensures r.1 <==> name in m.hooks
    ensures r.0.hooks.Keys == m.hooks.Keys
    ensures name in m.hooks ==>
              r.0.hooks[name].config == m.hooks[name].config.(enabled := enabled)
              && r.0.hooks[name].action == m.hooks[name].action
    ensures forall n :: n != name ==> GetHook(r.0, n) == GetHook(m, n)
    ensures Valid(m) ==> Valid(r.0)
  {
    if name in m.hooks then
      var h := m.hooks[name];
      (HookManager(m.hooks[name := h.(config := h.config.(enabled := enabled))]), true)
    else (m, false)
  }

  /** The add/get/remove sequence of the repository's registry test. */
  lemma AddGetRemoveExample(m: HookManager, config: HookConfig)
    ensures GetHook(AddHook(m, config), config.name).Some?
    ensures RemoveHook(AddHook(m, config), config.name).1
    ensures GetHook(RemoveHook(AddHook(m, config), config.name).0, config.name).None?
  {
  }

  /** `HookManager::from_configs`: `add_hook` for each config in turn. */
  function FromConfigs(configs: seq<HookConfig>): (m: HookManager)
    ensures Valid(m)
    decreases |configs|
  {
    if |configs| == 0 then EmptyManager
    else AddHook(FromConfigs(configs[..|configs| - 1]), configs[|configs| - 1])
  }

  /** The names registered by `from_configs` are exactly the names of the configs. */
  lemma {:induction false} FromConfigsNames(configs: seq<HookConfig>)
    ensures forall i :: 0 <= i < |configs| ==> configs[i].name in FromConfigs(configs).hooks
    ensures forall n :: n in FromConfigs(configs).hooks ==> exists i :: 0 <= i < |configs| && configs[i].name == n
    decreases |configs|
  {
    if |configs| > 0 {
      var init := configs[..|configs| - 1];
      var prev := FromConfigs(init);
      FromConfigsNames(init);
      forall n | n in FromConfigs(configs).hooks ensures exists i :: 0 <= i < |configs| && configs[i].name == n {
        if n != configs[|configs| - 1].name {
          var i :| 0 <= i < |init| && init[i].name == n;
          assert configs[i].name == n;
        }
      }
      forall i | 0 <= i < |configs| - 1 ensures configs[i].name in FromConfigs(configs).hooks {
        assert init[i] == configs[i];
      }
    }
  }

  /** Of several configs with one name, `from_configs` keeps the last. */
  lemma {:induction false} FromConfigsKeepsLast(configs: seq<HookConfig>, i: nat)
    requires i < |configs|
    requires forall j :: i < j < |configs| ==> configs[j].name != configs[i].name
    ensures GetHook(FromConfigs(configs), configs[i].name) == Some(NewHook(configs[i]))
    decreases |configs|
  {
    var init := configs[..|configs| - 1];
    if i < |configs| - 1 {
      FromConfigsKeepsLast(init, i);
    }
  }

  // ---------------------------------------------------------------------------
  // Scanning the hooks for a key (`process_key`) and listing them.
  // ---------------------------------------------------------------------------

  /** `order` lists every registered name exactly once: one possible iteration order of the
      `HashMap` the source keeps its hooks in. */
  predicate IsEnumeration(order: seq<string>, names: set<string>)
  {
    && (forall i :: 0 <= i < |order| ==> order[i] in names)
    && (forall n :: n in names ==> n in order)
    && (forall i, j :: 0 <= i < j < |order| ==> order[i] != order[j])
  }

  /** The hook matches the key and its action consumes it. */
  predicate HookConsumes(h: Hook, key: KeyInput, spawns: string -> bool)
  {
    Matches(h, key) && Execute(h, key, spawns) == Consumed
  }

  /** Some registered hook would consume the key: the order-free meaning of a scan. */
  predicate AnyConsumes(m: HookManager, key: KeyInput, spawns: string -> bool)
  {
    exists n :: n in m.hooks && HookConsumes(m.hooks[n], key, spawns)
  }

  /** One hook's turn in the scan: whether it matched and its action consumed the key. A
      failing action counts as not consumed; its error is only reported. */
  method Fire(h: Hook, key: KeyInput, spawns: string -> bool) returns (consumed: bool)
    ensures consumed <==> HookConsumes(h, key, spawns)
  {
    consumed := false;
    if Matches(h, key) {
      var outcome := Execute(h, key, spawns);
      consumed := outcome == Consumed;
    }
  }

  /** `HookManager::process_key`, scanning the hooks in the iteration order `order`. It
      returns whether a hook consumed the key and how many entries of `order` it examined:
      the scan stops at the first consumer, and skips hooks that do not match, that report
      not consumed, or whose action fails. The result is the same for every order. */
  method ProcessKey(m: HookManager, key: KeyInput, order: seq<string>, spawns: string -> bool)
      returns (consumed: bool, examined: nat)
    requires IsEnumeration(order, m.hooks.Keys)
    ensures consumed <==> AnyConsumes(m, key, spawns)
    ensures examined <= |order|
    ensures !consumed ==> examined == |order|
    ensures consumed ==> examined > 0 && HookConsumes(m.hooks[order[examined - 1]], key, spawns)
    ensures forall i :: 0 <= i < examined - 1 ==> !HookConsumes(m.hooks[order[i]], key, spawns)
  {
    examined := 0;
    consumed := false;
    while examined < |order|
      invariant examined <= |order|
      invariant forall i :: 0 <= i < examined ==> !HookConsumes(m.hooks[order[i]], key, spawns)
      decreases |order| - examined
    {
      var fired := Fire(m.hooks[order[examined]], key, spawns);
      examined := examined + 1;
      if fired {
        consumed := true;
        return;
      }
    }
    NoneInOrder(m, key, order, spawns);
  }

  /** A scan that finds no consumer in an enumeration of the names finds none at all. */
  lemma NoneInOrder(m: HookManager, key: KeyInput, order: seq<string>, spawns: string -> bool)
    requires IsEnumeration(order, m.hooks.Keys)
    requires forall i :: 0 <= i < |order| ==> !HookConsumes(m.hooks[order[i]], key, spawns)
    ensures !AnyConsumes(m, key, spawns)
  {
    forall n | n in m.hooks ensures !HookConsumes(m.hooks[n], key, spawns) {
      var i :| 0 <= i < |order| && order[i] == n;
    }
  }

  /** A key that no enabled hook matches is passed through. */
  lemma NoMatchPassesThrough(m: HookManager, key: KeyInput, spawns: string -> bool)
    requires forall n :: n in m.hooks ==> !Matches(m.hooks[n], key)
    ensures !AnyConsumes(m, key, spawns)
  {
  }

  /** The enabled configs among the hooks named in `order`, in that order. */
  function EnabledConfigs(hooks: map<string, Hook>, order: seq<string>): (r: seq<HookConfig>)
    requires forall i :: 0 <= i < |order| ==> order[i] in hooks
    ensures |r| <= |order|
    ensures forall c :: c in r ==> c.enabled
    ensures forall c :: c in r ==> exists i :: 0 <= i < |order| && hooks[order[i]].config == c
    ensures forall i :: 0 <= i < |order| && hooks[order[i]].config.enabled ==> hooks[order[i]].config in r
    decreases |order|
  {
    if |order| == 0 then []
    else
      var rest := EnabledConfigs(hooks, order[1..]);
      var c := hooks[order[0]].config;
      assert forall c' :: c' in rest ==> exists i :: 0 <= i < |order| && hooks[order[i]].config == c' by {
        forall c' | c' in rest ensures exists i :: 0 <= i < |order| && hooks[order[i]].config == c' {
          var j :| 0 <= j < |order[1..]| && hooks[order[1..][j]].config == c';
          assert hooks[order[j + 1]].config == c';
        }
      }
      assert forall i :: 1 <= i < |order| && hooks[order[i]].config.enabled ==> hooks[order[i]].config in rest by {
        forall i | 1 <= i < |order| && hooks[order[i]].config.enabled ensures hooks[order[i]].config in rest {
          assert order[1..][i - 1] == order[i];
        }
      }
      if c.enabled then [c] + rest else rest
  }

  /** `HookManager::list_enabled_hooks`, in the iteration order `order`: exactly the
      configs of the hooks whose enabled flag is set. */
  function ListEnabledHooks(m: HookManager, order: seq<string>): (r: seq<HookConfig>)
    requires IsEnumeration(order, m.hooks.Keys)
    ensures forall c :: c in r <==> c.enabled && exists n :: n in m.hooks && m.hooks[n].config == c
    ensures |r| == |EnabledNames(m.hooks, m.hooks.Keys)|
  {
    EnabledConfigsCount(m.hooks, order);
    assert Visited(order) == m.hooks.Keys;
    EnabledConfigs(m.hooks, order)
  }

  /** The names among `names` whose hooks are enabled. */
  function EnabledNames(hooks: map<string, Hook>, names: set<string>): set<string>
  {
    set n | n in names && n in hooks && hooks[n].config.enabled
  }

  /** The names an iteration order visits. */
  function Visited(order: seq<string>): set<string>
  {
    set i | 0 <= i < |order| :: order[i]
  }

  /** An order visits its first name and then the names of its tail, which over distinct
      names do not include the first. */
  lemma VisitedCons(order: seq<string>)
    requires |order| > 0
    requires forall i, j :: 0 <= i < j < |order| ==> order[i] != order[j]
    ensures Visited(order) == Visited(order[1..]) + {order[0]}
    ensures order[0] !in Visited(order[1..])
  {
    var tail := order[1..];
    forall n | n in Visited(order) ensures n in Visited(tail) + {order[0]} {
      var i :| 0 <= i < |order| && order[i] == n;
      if i > 0 { assert tail[i - 1] == n; }
    }
    forall n | n in Visited(tail) ensures n in Visited(order) {
      var i :| 0 <= i < |tail| && tail[i] == n;
      assert order[i + 1] == n;
    }
    forall i | 0 <= i < |tail| ensures tail[i] != order[0] {
      assert tail[i] == order[i + 1];
    }
  }

  /** Over distinct names, the listing has one entry per enabled hook. */
  lemma {:induction false} EnabledConfigsCount(hooks: map<string, Hook>, order: seq<string>)
    requires forall i :: 0 <= i < |order| ==> order[i] in hooks
    requires forall i, j :: 0 <= i < j < |order| ==> order[i] != order[j]
    ensures |EnabledConfigs(hooks, order)| == |EnabledNames(hooks, Visited(order))|
    decreases |order|
  {
    if |order| == 0 {
      assert EnabledNames(hooks, Visited(order)) == {};
    } else {
      var tail := order[1..];
      EnabledConfigsCount(hooks, tail);
      VisitedCons(order);
      var before := EnabledNames(hooks, Visited(tail));
      if hooks[order[0]].config.enabled {
        assert EnabledNames(hooks, Visited(order)) == before + {order[0]};
      } else {
        assert EnabledNames(hooks, Visited(order)) == before;
      }
    }
  }


  // ---------------------------------------------------------------------------
  // The default hooks.
  // ---------------------------------------------------------------------------

  /** What the scan needs to know about the default hook list. */
  predicate DefaultShaped(cs: seq<HookConfig>)
  {
    && |cs| == 4
    && cs[0].name == "help" && cs[0].keyCombination == "ctrl+;" && cs[0].action == "fn:show_help" && cs[0].enabled
    && cs[1].name == "time" && !cs[1].enabled
    && cs[2].name == "clear" && !cs[2].enabled
    && cs[3].name == "config_info" && cs[3].keyCombination == "ctrl+shift+c" && cs[3].enabled
  }

  /** `create_default_hooks`. */
  function CreateDefaultHooks(): (cs: seq<HookConfig>)
    ensures DefaultShaped(cs)
    ensures forall i, j :: 0 <= i < j < |cs| ==> cs[i].name != cs[j].name
  {
    [ HookConfig("help", "ctrl+;", "fn:show_help", Some("Show help information"), true),
      HookConfig("time", "ctrl+t", "fn:show_time", Some("Show current time"), false),
      HookConfig("clear", "ctrl+l", "builtin:clear_screen", Some("Clear screen"), false),
      HookConfig("config_info", "ctrl+shift+c", "builtin:show_config", Some("Show configuration info"), true) ]
  }

  lemma DefaultShapedNames(cs: seq<HookConfig>)
    requires DefaultShaped(cs)
    ensures FromConfigs(cs).hooks.Keys == {"help", "time", "clear", "config_info"}
  {
    var m := FromConfigs(cs);
    FromConfigsNames(cs);
    forall n | n in m.hooks ensures n in {"help", "time", "clear", "config_info"} {
      var i :| 0 <= i < |cs| && cs[i].name == n;
      assert i == 0 || i == 1 || i == 2 || i == 3;
    }
  }

  lemma DefaultShapedEntry(cs: seq<HookConfig>, i: nat)
    requires DefaultShaped(cs) && i < 4
    ensures GetHook(FromConfigs(cs), cs[i].name) == Some(NewHook(cs[i]))
  {
    FromConfigsKeepsLast(cs, i);
  }

  lemma DefaultShapedConsumesHelpKey(cs: seq<HookConfig>, spawns: string -> bool)
    requires DefaultShaped(cs)
    ensures AnyConsumes(FromConfigs(cs), NewKeyInput(Char(';'), Ctrl), spawns)
  {
    var m := FromConfigs(cs);
    DefaultShapedEntry(cs, 0);
    SemicolonPatternExample();
    ParseActionExamples();
    assert HookConsumes(m.hooks["help"], NewKeyInput(Char(';'), Ctrl), spawns);
  }

  /** A key held with no modifier matches no hook at all. */
  lemma UnmodifiedKeyPassesThrough(m: HookManager, code: KeyCode, spawns: string -> bool)
    ensures !AnyConsumes(m, NewKeyInput(code, NoModifiers), spawns)
  {
    var x := NewKeyInput(code, NoModifiers);
    forall n | n in m.hooks ensures !Matches(m.hooks[n], x) {
      if MatchesPattern(x, m.hooks[n].config.keyCombination) {
        MatchNeedsModifierPart(x, m.hooks[n].config.keyCombination);
      }
    }
  }

  /** ctrl+'t' is neither ctrl+';' nor ctrl+shift+'c'. */
  lemma CtrlTMissesEnabledDefaults()
    ensures !MatchesPattern(NewKeyInput(Char('t'), Ctrl), "ctrl+;")
    ensures !MatchesPattern(NewKeyInput(Char('t'), Ctrl), "ctrl+shift+c")
  {
    var t := NewKeyInput(Char('t'), Ctrl);
    OneModifierDenotes(NewKeyInput(Char(';'), Ctrl), "ctrl", ";", "ctrl+;", t);
    var shiftC := NewKeyInput(Char('c'), Ctrl.(shift := true));
    FormatCtrlShiftC();
    FormatPatternDenotesKey(shiftC, t);
  }

  /** A key that neither enabled default pattern matches passes through a registry that holds
      exactly the default hooks. */
  lemma DefaultShapedMisses(m: HookManager, cs: seq<HookConfig>, key: KeyInput, spawns: string -> bool)
    requires DefaultShaped(cs)
    requires m.hooks.Keys == {"help", "time", "clear", "config_info"}
    requires GetHook(m, cs[0].name) == Some(NewHook(cs[0])) && GetHook(m, cs[1].name) == Some(NewHook(cs[1]))
    requires GetHook(m, cs[2].name) == Some(NewHook(cs[2])) && GetHook(m, cs[3].name) == Some(NewHook(cs[3]))
    requires !MatchesPattern(key, cs[0].keyCombination) && !MatchesPattern(key, cs[3].keyCombination)
    ensures !AnyConsumes(m, key, spawns)
  {
    forall n | n in m.hooks ensures !Matches(m.hooks[n], key) {
      var i := if n == "help" then 0 else if n == "time" then 1 else if n == "clear" then 2 else 3;
      assert GetHook(m, cs[i].name) == Some(NewHook(cs[i]));
    }
  }

  lemma DefaultShapedPassesCtrlT(cs: seq<HookConfig>, spawns: string -> bool)
    requires DefaultShaped(cs)
    ensures !AnyConsumes(FromConfigs(cs), NewKeyInput(Char('t'), Ctrl), spawns)
  {
    DefaultShapedNames(cs);
    DefaultShapedEntry(cs, 0);
    DefaultShapedEntry(cs, 1);
    DefaultShapedEntry(cs, 2);
    DefaultShapedEntry(cs, 3);
    CtrlTMissesEnabledDefaults();
    DefaultShapedMisses(FromConfigs(cs), cs, NewKeyInput(Char('t'), Ctrl), spawns);
  }

  /** With the default hooks ctrl+';' is consumed (by the help hook), while 'x' without
      modifiers and ctrl+'t' (whose hook is disabled) pass through. */
  lemma DefaultHooksBehaviour(spawns: string -> bool)
    ensures AnyConsumes(FromConfigs(CreateDefaultHooks()), NewKeyInput(Char(';'), Ctrl), spawns)
    ensures !AnyConsumes(FromConfigs(CreateDefaultHooks()), NewKeyInput(Char('x'), NoModifiers), spawns)
    ensures !AnyConsumes(FromConfigs(CreateDefaultHooks()), NewKeyInput(Char('t'), Ctrl), spawns)
  {
    DefaultShapedConsumesHelpKey(CreateDefaultHooks(), spawns);
    UnmodifiedKeyPassesThrough(FromConfigs(CreateDefaultHooks()), Char('x'), spawns);
    DefaultShapedPassesCtrlT(CreateDefaultHooks(), spawns);
  }
}
