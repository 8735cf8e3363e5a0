/**
 * The members every plain JavaScript object inherits from `Object.prototype`.
 * A property read `obj[key]` finds one of them whenever `obj` has no own
 * property `key`, even on an object created as `{}`.
 */
module JsObject {

  /** The inherited members; each is a function or, for `__proto__`, an object, and so truthy. */
  const PrototypeMembers: set<string> := {
    "constructor", "hasOwnProperty", "isPrototypeOf", "propertyIsEnumerable",
    "toLocaleString", "toString", "valueOf", "__proto__",
    "__defineGetter__", "__defineSetter__", "__lookupGetter__", "__lookupSetter__"
  }

  /**
   * The text an inherited member converts to in `member + 1`: a built-in
   * function prints as `function name() { [native code] }` (the `constructor`
   * is the `Object` function), and `__proto__`, which is `Object.prototype`
   * itself, prints as `[object Object]`.
   */
  function InheritedText(name: string): string
    requires name in PrototypeMembers
  {
    if name == "__proto__" then "[object Object]"
    else if name == "constructor" then "function Object() { [native code] }"
    else "function " + name + "() { [native code] }"
  }
}
