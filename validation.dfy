/** The command validators `check_namespace_name` and
    `check_namespaces_names`, and Python truthiness of decoded values. */
module Validation {
  import opened Types

  /** Either the value passed, or a ClientError carrying its message. */
  datatype Check = Pass | ClientError(msg: string)

  const ErrNotString := "Invalid namespace value: must be a tring"
  const ErrNameTooLong := "Maximum length for namespace is 50"
  const ErrNotArray := "Invalid listen value: must be an array"
  const ErrTooManyNames := "Maximum listenable namespaces is 20"

  /** `if value:` in Python: empty strings and arrays are false, and so are
      null, false, 0 and {}; everything else is true. */
  predicate Truthy(v: Value)
  {
    match v
    case Str(s) => s != ""
    case List(xs) => xs != []
    case Other(t) => t
  }

  /** A namespace name the validator accepts: any string of at most 50
      characters, the empty string included. */
  predicate ValidName(v: Value)
  {
    v.Str? && |v.s| <= MaxNamespaceLen
  }

  /** A listen argument the validator accepts. */
  predicate ValidNames(v: Value)
  {
    v.List? && |v.items| <= MaxNamespaceListen
    && forall i :: 0 <= i < |v.items| ==> ValidName(v.items[i])
  }

  function CheckNamespaceName(v: Value): (r: Check)
    ensures r.Pass? <==> ValidName(v)
    ensures !v.Str? ==> r == ClientError(ErrNotString)
    ensures v.Str? && |v.s| > MaxNamespaceLen ==> r == ClientError(ErrNameTooLong)
  {
    if !v.Str? then ClientError(ErrNotString)
    else if |v.s| > MaxNamespaceLen then ClientError(ErrNameTooLong)
    else Pass
  }

  /** The `for` loop of `check_namespaces_names`: the error of the first
      element that fails, or Pass. */
  function FirstNameError(items: seq<Value>): (r: Check)
    ensures r.Pass? <==> forall i :: 0 <= i < |items| ==> ValidName(items[i])
    ensures r.ClientError? ==>
      exists i :: 0 <= i < |items| && r == CheckNamespaceName(items[i])
        && (forall j :: 0 <= j < i ==> ValidName(items[j]))
  {
    if items == [] then Pass
    else if CheckNamespaceName(items[0]).ClientError? then CheckNamespaceName(items[0])
    else
      var rest := FirstNameError(items[1..]);
      assert forall i :: 1 <= i < |items| ==> items[i] == items[1..][i - 1];
      if rest.ClientError? then
        ghost var k :| 0 <= k < |items[1..]| && rest == CheckNamespaceName(items[1..][k])
                      && (forall j :: 0 <= j < k ==> ValidName(items[1..][j]));
        assert rest == CheckNamespaceName(items[k + 1]);
        rest
      else rest
  }

  function CheckNamespacesNames(v: Value): (r: Check)
    ensures r.Pass? <==> ValidNames(v)
    ensures !v.List? ==> r == ClientError(ErrNotArray)
    ensures v.List? && |v.items| > MaxNamespaceListen ==> r == ClientError(ErrTooManyNames)
    ensures v.List? && |v.items| <= MaxNamespaceListen && r.ClientError? ==>
      exists i :: 0 <= i < |v.items| && r == CheckNamespaceName(v.items[i])
        && (forall j :: 0 <= j < i ==> ValidName(v.items[j]))
  {
    if !v.List? then ClientError(ErrNotArray)
    else if |v.items| > MaxNamespaceListen then ClientError(ErrTooManyNames)
    else FirstNameError(v.items)
  }

  /** The names of an accepted listen argument, in request order. */
  function NamesOf(items: seq<Value>): (names: seq<string>)
    requires forall i :: 0 <= i < |items| ==> items[i].Str?
    ensures |names| == |items|
    ensures forall i :: 0 <= i < |names| ==> names[i] == items[i].s
  {
    seq(|items|, i requires 0 <= i < |items| => items[i].s)
  }

  /** A name of 51 characters is refused with the 50-character message, and
      a list of 21 names with the 20-namespace message. */
  lemma LimitsAreExact(long: string, many: seq<Value>)
    requires |long| == MaxNamespaceLen + 1
    requires |many| == MaxNamespaceListen + 1
    ensures CheckNamespaceName(Str(long)) == ClientError(ErrNameTooLong)
    ensures CheckNamespaceName(Str(long[..MaxNamespaceLen])).Pass?
    ensures CheckNamespacesNames(List(many)) == ClientError(ErrTooManyNames)
  {
  }
}
