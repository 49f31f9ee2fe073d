/**
 * The menu entry of `tools/option.py` and the handlers it carries.
 *
 * Python binds handlers as closures; here each closure the core builds is a
 * `Command` value that names the operation and holds what it captured. The
 * dataclass is frozen, which a Dafny datatype is by construction.
 */
module OptionModel {
  import opened Wrappers
  import opened PyStr
  import opened Records

  /** The handlers the core binds into options. */
  datatype Command =
    | ClearTerminal                                   // the Exit option's handler (opaque)
    | DoNothing                                       // the default `lambda: None`
    | RunScreen(options: seq<MenuOption>, description: Option<string>)
    | SetWallet(privateKey: string, walletLabel: Option<string>)
    | DeleteWallet(privateKey: string)
    | DeleteWalletAndPromote(privateKey: string)
    | SetCustomAccount(record: CustomAccount)
    | DeleteCustomAccount(account: string, email: string)
    | DeleteCustomAccountAndPromote(account: string, email: string)
    | DeleteAccountGroup(account: string)
    | InstallPackage(package: Package, github: bool)
    | InstallPackageSet(packages: seq<Package>)

  /** A menu entry: the source's `Option` dataclass. A deleting handler of `None` is `None` here. */
  datatype MenuOption = MenuOption(
    name: string,
    handler: Command,
    description: Option<string>,
    deletingHandler: Option<Command>)

  /** `Option(name=..., handler=...)` with the dataclass defaults for the other two fields. */
  function NewOption(name: string, handler: Command): (o: MenuOption)
    ensures o.name == name && o.handler == handler
    ensures o.description == None
    ensures o.deletingHandler == Some(DoNothing)
  {
    MenuOption(name, handler, None, Some(DoNothing))
  }

  /**
   * The Python values that `Option.get` can return. `Attribute(name)` stands
   * for any other attribute of the instance (a method, the class, the
   * docstring, a dataclass dictionary), which is kept opaque.
   */
  datatype Value = NoneValue | Text(text: string) | Callable(command: Command) | EmptyList | Attribute(attrName: string)

  /** Python truthiness of those values: every callable and every opaque attribute is truthy. */
  predicate IsTruthy(v: Value)
  {
    match v
    case NoneValue => false
    case Text(s) => s != ""
    case Callable(_) => true
    case EmptyList => false
    case Attribute(_) => true
  }

  /** The four dataclass fields. */
  const FieldNames: set<string> := {"name", "handler", "description", "deleting_handler"}

  /**
   * The other attributes `getattr` finds on an instance of the frozen
   * dataclass: its `get` method, what the dataclass decorator generates, and
   * what every class inherits from `object`. All of them are truthy objects.
   */
  const OtherAttributes: set<string> := {
    "get", "__class__", "__doc__", "__module__", "__dict__", "__annotations__",
    "__dataclass_fields__", "__dataclass_params__", "__match_args__",
    "__init__", "__repr__", "__eq__", "__hash__", "__setattr__", "__delattr__",
    "__new__", "__str__", "__format__", "__getattribute__", "__ne__",
    "__lt__", "__le__", "__gt__", "__ge__", "__sizeof__", "__reduce__",
    "__reduce_ex__", "__dir__", "__init_subclass__", "__subclasshook__"}

  /** Without `__slots__` an instance has `__weakref__`, which reads as `None` while nothing refers to it weakly. */
  const WeakRefAttribute: string := "__weakref__"

  datatype AttributeError = AttributeError(attr: string)

  /** `getattr(option, attr)`; `None` when the instance has no such attribute. */
  function Field(o: MenuOption, attr: string): Option<Value>
  {
    if attr == "name" then Some(Text(o.name))
    else if attr == "handler" then Some(Callable(o.handler))
    else if attr == "description" then
      Some(if o.description.Some? then Text(o.description.value) else NoneValue)
    else if attr == "deleting_handler" then
      Some(if o.deletingHandler.Some? then Callable(o.deletingHandler.value) else NoneValue)
    else if attr in OtherAttributes then Some(Attribute(attr))
    else if attr == WeakRefAttribute then Some(NoneValue)
    else None
  }

  /** `Option.get(attr, default)`: the attribute when truthy, else the default; a missing attribute raises. */
  function Get(o: MenuOption, attr: string, default: Value): (r: Result<Value, AttributeError>)
    ensures Field(o, attr).None? <==> r.Err?
    ensures Field(o, attr).Some? && IsTruthy(Field(o, attr).value) ==> r == Ok(Field(o, attr).value)
    ensures Field(o, attr).Some? && !IsTruthy(Field(o, attr).value) ==> r == Ok(default)
  {
    match Field(o, attr)
    case None => Err(AttributeError(attr))
    case Some(v) => Ok(if IsTruthy(v) then v else default)
  }

  /** What the engine's `options[i].get('deleting_handler')` yields, as an optional handler. */
  function DeletingHandler(o: MenuOption): (r: Option<Command>)
    ensures r == o.deletingHandler
  {
    match Get(o, "deleting_handler", NoneValue)
    case Ok(Callable(c)) => Some(c)
    case _ => None
  }

  /** The length the engine records for a description: `len(option.get('description', []))`. */
  function DescriptionLength(o: MenuOption): (n: nat)
    ensures TruthyOpt(o.description) ==> n == |o.description.value|
    ensures !TruthyOpt(o.description) ==> n == 0
  {
    var v := Get(o, "description", EmptyList).value;
    if v.Text? then |v.text| else 0
  }

  /** `description` defaults to `None`, so `get` falls back to the default. */
  lemma DescriptionDefaultsToNone(name: string, handler: Command, default: Value)
    ensures Get(NewOption(name, handler), "description", default) == Ok(default)
  {
  }

  /** The default deleting handler is a lambda, hence truthy: such an option is deletable. */
  lemma DefaultOptionIsDeletable(name: string, handler: Command)
    ensures Get(NewOption(name, handler), "deleting_handler", NoneValue) == Ok(Callable(DoNothing))
    ensures DeletingHandler(NewOption(name, handler)).Some?
  {
  }

  /** A falsy field (`None` or the empty string) yields the default. */
  lemma FalsyFieldYieldsDefault(o: MenuOption, default: Value)
    requires o.description == None || o.description == Some("")
    ensures Get(o, "description", default) == Ok(default)
  {
  }

  /** A name that is not an attribute of the option raises instead of returning the default. */
  lemma UnknownAttributeRaises(o: MenuOption, attr: string, default: Value)
    requires attr !in FieldNames && attr !in OtherAttributes && attr != WeakRefAttribute
    ensures Get(o, attr, default) == Err(AttributeError(attr))
  {
  }

  /** A method or other non-field attribute is truthy, so `get` returns it and never the default. */
  lemma OtherAttributeReturned(o: MenuOption, attr: string, default: Value)
    requires attr in OtherAttributes
    ensures Get(o, attr, default) == Ok(Attribute(attr))
  {
  }

  /** `option.get('get')` is the bound method itself, not the default. */
  lemma GetOfGetIsMethod(o: MenuOption)
    ensures Get(o, "get", NoneValue) == Ok(Attribute("get"))
  {
  }

  /** `__weakref__` reads as `None`, so `get` falls back to the default. */
  lemma WeakRefYieldsDefault(o: MenuOption, default: Value)
    ensures Get(o, WeakRefAttribute, default) == Ok(default)
  {
  }
}
