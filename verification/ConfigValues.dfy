/** Parsed YAML and JSON values as Python sees them, and the host-name syntax of the settings. */
module ConfigValues {
  import opened Wrappers
  import opened Text

  type Positive = n: nat | n > 0 witness 1

  /** A finite float is a ratio of integers; YAML's infinities and not-a-number are left out. */
  datatype Value =
    | Null
    | Bool(b: bool)
    | Int(i: int)
    | Float(num: int, den: Positive)
    | Str(s: string)
    | List(items: seq<Value>)
    | Dict(entries: map<string, Value>)

  /** Booleans are numbers in comparisons. */
  function Numeric(v: Value): Option<real> {
    match v
    case Bool(b) => Some(if b then 1.0 else 0.0)
    case Int(i) => Some(i as real)
    case Float(num, den) => Some(num as real / den as real)
    case _ => None
  }

  /** The == of Python. */
  predicate PyEq(a: Value, b: Value)
    decreases a
  {
    match (a, b)
    case (List(x), List(y)) => |x| == |y| && forall i :: 0 <= i < |x| ==> PyEq(x[i], y[i])
    case (Dict(x), Dict(y)) => x.Keys == y.Keys && forall k :: k in x ==> PyEq(x[k], y[k])
    case _ => if Numeric(a).Some? then Numeric(a) == Numeric(b) else a == b
  }

  predicate Truthy(v: Value) {
    match v
    case Null => false
    case Bool(b) => b
    case Int(i) => i != 0
    case Float(num, _) => num != 0
    case Str(s) => s != ""
    case List(items) => items != []
    case Dict(entries) => entries != map[]
  }

  lemma {:induction false} PyEqReflexive(v: Value)
    ensures PyEq(v, v)
  {
    match v
    case List(x) =>
      forall i | 0 <= i < |x| ensures PyEq(x[i], x[i]) {
        PyEqReflexive(x[i]);
      }
    case Dict(x) =>
      forall k | k in x ensures PyEq(x[k], x[k]) {
        PyEqReflexive(x[k]);
      }
    case _ =>
  }

  /** Numbers are equal by value, whatever their type, and equal to nothing else. */
  lemma NumbersAreEqualByValue(i: int, b: bool, num: int, den: Positive, v: Value)
    ensures PyEq(Int(i), v) <==> v == Int(i) || (v == Bool(true) && i == 1) || (v == Bool(false) && i == 0) ||
                                 (v.Float? && v.num == i * v.den)
    ensures PyEq(Bool(b), v) <==> PyEq(Int(if b then 1 else 0), v)
    ensures v.Float? ==> (PyEq(Float(num, den), v) <==> num * v.den == v.num * den)
  {
    if v.Float? {
      RatiosCompare(num, den, v.num, v.den);
      RatiosCompare(i, 1, v.num, v.den);
    }
  }

  lemma RatiosCompare(a: int, b: Positive, c: int, d: Positive)
    ensures a as real / b as real == c as real / d as real <==> a * d == c * b
  {
    var (x, y) := (a as real / b as real, c as real / d as real);
    assert x * b as real == a as real && y * d as real == c as real;
    if x == y {
      assert (a * d) as real == x * b as real * d as real == (c * b) as real;
    } else {
      assert (a * d) as real - (c * b) as real == (x - y) * (b as real * d as real);
    }
  }

  /** Anything else is equal to its like only: the same text, or a list or mapping of equal entries. */
  lemma OthersAreEqualByParts(a: Value, b: Value)
    requires !a.Int? && !a.Bool? && !a.Float?
    ensures a == Null || a.Str? ==> (PyEq(a, b) <==> a == b)
    ensures a.List? ==> (PyEq(a, b) <==> b.List? && |a.items| == |b.items| &&
                                         forall i :: 0 <= i < |a.items| ==> PyEq(a.items[i], b.items[i]))
    ensures a.Dict? ==> (PyEq(a, b) <==> b.Dict? && a.entries.Keys == b.entries.Keys &&
                                         forall k :: k in a.entries ==> PyEq(a.entries[k], b.entries[k]))
  {
  }

  /** None, False, zero, and whatever is empty. */
  ghost predicate CountsAsFalse(v: Value) {
    || v == Null || v == Bool(false) || v == Int(0) || (v.Float? && v.num == 0)
    || v == Str("") || v == List([]) || (v.Dict? && v.entries.Keys == {})
  }

  lemma FalseValues(v: Value)
    ensures CountsAsFalse(v) <==> !Truthy(v)
  {
    if v.Dict? && v.entries.Keys == {} {
      assert v.entries == map[];
    }
  }

  // ----------------------------------------------------------------- host names

  predicate IsLetter(c: char) { 'a' <= c <= 'z' || 'A' <= c <= 'Z' }
  predicate IsAlnum(c: char) { IsLetter(c) || '0' <= c <= '9' }

  /** One DNS label: up to 63 letters, digits and inner hyphens. */
  predicate IsLabel(l: string) {
    && 1 <= |l| <= 63 && IsAlnum(l[0]) && IsAlnum(l[|l| - 1])
    && forall i :: 0 <= i < |l| ==> IsAlnum(l[i]) || l[i] == '-'
  }

  predicate IsTopLabel(l: string) {
    2 <= |l| <= 63 && forall i :: 0 <= i < |l| ==> IsLetter(l[i])
  }

  /** The pattern _HOSTNAME_RE. */
  predicate IsHostname(s: string) {
    var labels := Split(s, '.');
    && 1 <= |s| <= 253 && |labels| >= 2 && IsTopLabel(labels[|labels| - 1])
    && forall i :: 0 <= i < |labels| - 1 ==> IsLabel(labels[i])
  }

  /** The pattern _DOMAIN_RE with its length check; the caller lower-cases first. */
  predicate IsDomain(s: string) {
    var labels := Split(s, '.');
    && 1 <= |s| <= 253 && |labels| >= 2
    && forall i :: 0 <= i < |labels| ==> IsLabel(labels[i]) && IsLower(labels[i])
  }

  /** One to 63 letters, digits and hyphens, no hyphen at either end. */
  ghost predicate IsLabelText(l: string) {
    && 0 < |l| < 64
    && (forall i :: 0 <= i < |l| ==> 'a' <= l[i] <= 'z' || 'A' <= l[i] <= 'Z' || '0' <= l[i] <= '9' || (l[i] == '-' && 0 < i < |l| - 1))
  }

  ghost predicate AreLabels(labels: seq<string>) {
    labels != [] && forall i :: 0 <= i < |labels| ==> '.' !in labels[i]
  }

  /**
   Labels joined by dots are a host name iff there are at least two, all are well formed, the
   last has two or more letters and nothing else, and the whole is within 253 characters; and
   a domain of the configuration iff at least two are well formed and in lower case, within
   the same length.
   */
  lemma HostnameIff(labels: seq<string>)
    requires AreLabels(labels)
    ensures IsHostname(Join(labels, '.')) <==>
      && |labels| >= 2 && |Join(labels, '.')| <= 253 && (forall i :: 0 <= i < |labels| ==> IsLabelText(labels[i]))
      && var last := labels[|labels| - 1]; |last| >= 2 && forall i :: 0 <= i < |last| ==> IsLetter(last[i])
    ensures IsDomain(Join(labels, '.')) <==>
      && |labels| >= 2 && |Join(labels, '.')| <= 253
      && forall i :: 0 <= i < |labels| ==> IsLabelText(labels[i]) && IsLower(labels[i])
  {
    JoinThenSplit(labels, '.');
    forall i | 0 <= i < |labels| ensures IsLabel(labels[i]) <==> IsLabelText(labels[i]) {
      LabelIff(labels[i]);
    }
    var last := labels[|labels| - 1];
    if |last| >= 2 && forall i :: 0 <= i < |last| ==> IsLetter(last[i]) {
      assert IsLabelText(last) <==> |last| <= 63;
    }
  }

  lemma LabelIff(l: string)
    ensures IsLabel(l) <==> IsLabelText(l)
  {
  }
}
