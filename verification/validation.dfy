/** middleware/validationMiddleware.js: the request-body validator chains
    and `handleValidationErrors`. A body is a map from field names to the
    strings the validators see (express-validator turns every value into a
    string first; an absent field reads as the empty string). */
module Validation {
  import opened Text

  type Form = map<string, string>

  /** The validators the chains use, with the options they pass. */
  datatype Rule =
    | NotEmpty
    | MinLength(min: nat)
    | LengthWithin(min: nat, max: nat)
    | IsEmail
    | IsFloatAbove0
    | IsIntMin0
    | IsBoolean

  /** One validator and the message it reports, its `withMessage` or the
      library default. */
  datatype Check = Check(rule: Rule, message: string)

  /** `body(path)` followed by its validators; `optional()` skips the whole
      chain when the field is absent. */
  datatype Chain = Chain(path: string, optional: bool, checks: seq<Check>)

  /** One entry of `errors.array()`: the field and the message. */
  datatype FieldError = FieldError(path: string, msg: string)

  /** What `handleValidationErrors` does: answer 400 with the errors, or
      call `next()`. */
  datatype Gate = Next | Reject(status: int, errors: seq<FieldError>)

  const DefaultMessage := "Invalid value"

  function Value(form: Form, path: string): string
  {
    if path in form then form[path] else ""
  }

  predicate IsDigit(c: char)
  {
    '0' <= c <= '9'
  }

  /** The length of the run of digits starting at `i`. */
  function DigitsFrom(s: string, i: nat): (n: nat)
    ensures i + n <= |s| || (i >= |s| && n == 0)
    ensures forall k :: i <= k < i + n ==> IsDigit(s[k])
    ensures i + n < |s| ==> !IsDigit(s[i + n])
    decreases |s| - i
  {
    if i < |s| && IsDigit(s[i]) then 1 + DigitsFrom(s, i + 1) else 0
  }

  /** The length of a leading `+` or `-`. */
  function SignLength(s: string): (a: nat)
    ensures a <= |s|
  {
    if |s| > 0 && (s[0] == '+' || s[0] == '-') then 1 else 0
  }

  /** Where the mantissa of a decimal numeral ends: an optional sign, digits,
      and an optional point followed by digits. */
  function MantissaEnd(s: string): (c: nat)
    ensures c <= |s|
  {
    var a := SignLength(s);
    var b := a + DigitsFrom(s, a);
    if b < |s| && s[b] == '.' then b + 1 + DigitsFrom(s, b + 1) else b
  }

  /** The numeral shape validator.js accepts for `isFloat`:
      `[+-]? digits? (. digits?)? ([eE] [+-]? digits)?`, except the empty
      string, a lone point and a lone sign. */
  predicate FloatShaped(s: string)
  {
    && s !in ["", ".", "+", "-"]
    && var c := MantissaEnd(s);
       || c == |s|
       || (&& (s[c] == 'e' || s[c] == 'E')
           && var e := if c + 1 < |s| && (s[c + 1] == '+' || s[c + 1] == '-') then c + 2 else c + 1;
              DigitsFrom(s, e) > 0 && e + DigitsFrom(s, e) == |s|)
  }

  /** `isFloat({ gt: 0 })`: a float numeral whose value is above zero — not
      negative, and with a non-zero digit in its mantissa. */
  predicate PositiveFloat(s: string)
  {
    && FloatShaped(s)
    && s[0] != '-'
    && exists k :: 0 <= k < MantissaEnd(s) && '1' <= s[k] <= '9'
  }

  /** `isInt({ min: 0 })`: an optional sign and digits (leading zeros
      allowed), and not below zero. */
  predicate NonNegativeInt(s: string)
  {
    && DigitsFrom(s, SignLength(s)) > 0
    && SignLength(s) + DigitsFrom(s, SignLength(s)) == |s|
    && (s[0] == '-' ==> forall k :: 1 <= k < |s| ==> s[k] == '0')
  }

  /** `isBoolean()` in its strict form. */
  predicate BooleanText(s: string)
  {
    s in ["true", "false", "1", "0"]
  }

  predicate Holds(rule: Rule, v: string)
  {
    match rule
    case NotEmpty => v != ""
    case MinLength(min) => |v| >= min
    case LengthWithin(min, max) => min <= |v| <= max
    case IsEmail => EmailShaped(v)
    case IsFloatAbove0 => PositiveFloat(v)
    case IsIntMin0 => NonNegativeInt(v)
    case IsBoolean => BooleanText(v)
  }

  /** A chain is satisfied when it is skipped or every validator holds. */
  predicate Satisfied(form: Form, c: Chain)
  {
    (c.optional && c.path !in form) || forall k :: 0 <= k < |c.checks| ==> Holds(c.checks[k].rule, Value(form, c.path))
  }

  /** The messages of the validators that fail on `v`, in order: a chain
      does not stop at its first failure. */
  function Failures(checks: seq<Check>, v: string): (msgs: seq<string>)
    ensures msgs == [] <==> forall k :: 0 <= k < |checks| ==> Holds(checks[k].rule, v)
    ensures |msgs| <= |checks|
    ensures forall m :: m in msgs ==> exists k :: 0 <= k < |checks| && checks[k].message == m && !Holds(checks[k].rule, v)
    ensures forall k :: 0 <= k < |checks| && !Holds(checks[k].rule, v) ==> checks[k].message in msgs
  {
    if checks == [] then []
    else
      var rest := Failures(checks[1..], v);
      assert forall k :: 1 <= k < |checks| ==> checks[k] == checks[1..][k - 1];
      if Holds(checks[0].rule, v) then rest else [checks[0].message] + rest
  }

  /** The errors one chain contributes. */
  function ChainErrors(form: Form, c: Chain): (r: seq<FieldError>)
    ensures r == [] <==> Satisfied(form, c)
    ensures forall k :: 0 <= k < |r| ==> r[k].path == c.path
  {
    if c.optional && c.path !in form then []
    else
      var msgs := Failures(c.checks, Value(form, c.path));
      seq(|msgs|, k requires 0 <= k < |msgs| => FieldError(c.path, msgs[k]))
  }

  /** `validationResult(req)` after the chains ran, in chain order. */
  function Errors(form: Form, chains: seq<Chain>): (r: seq<FieldError>)
    ensures r == [] <==> forall i :: 0 <= i < |chains| ==> Satisfied(form, chains[i])
  {
    if chains == [] then []
    else
      assert forall i :: 1 <= i < |chains| ==> chains[i] == chains[1..][i - 1];
      ChainErrors(form, chains[0]) + Errors(form, chains[1..])
  }

  /** `handleValidationErrors`: any error stops the request with 400 and
      the full list; otherwise control passes on. */
  function HandleValidationErrors(errors: seq<FieldError>): (g: Gate)
    ensures g == Next <==> errors == []
    ensures g.Reject? ==> g.status == 400 && g.errors == errors
  {
    if errors != [] then Reject(400, errors) else Next
  }

  /** A whole validator array run against a body. */
  function Validate(form: Form, chains: seq<Chain>): Gate
  {
    HandleValidationErrors(Errors(form, chains))
  }

  /** A chain of at most two validators is satisfied when it is skipped or
      each of them holds. */
  lemma SatisfiedShort(form: Form, c: Chain)
    requires |c.checks| <= 2
    ensures Satisfied(form, c) <==>
              || (c.optional && c.path !in form)
              || (&& (|c.checks| >= 1 ==> Holds(c.checks[0].rule, Value(form, c.path)))
                  && (|c.checks| == 2 ==> Holds(c.checks[1].rule, Value(form, c.path))))
  {
  }

  const RegisterRules: seq<Chain> := [
    Chain("firstName", false, [Check(NotEmpty, "First name is required"), Check(LengthWithin(2, 50), DefaultMessage)]),
    Chain("lastName", false, [Check(NotEmpty, "Last name is required"), Check(LengthWithin(2, 50), DefaultMessage)]),
    Chain("email", false, [Check(IsEmail, "Please include a valid email")]),
    Chain("password", false, [Check(MinLength(6), "Password must be at least 6 characters long")])
  ]

  const LoginRules: seq<Chain> := [
    Chain("email", false, [Check(IsEmail, "Please include a valid email")]),
    Chain("password", false, [Check(NotEmpty, "Password is required")])
  ]

  const ChangePasswordRules: seq<Chain> := [
    Chain("oldPassword", false, [Check(NotEmpty, "Old password is required")]),
    Chain("newPassword", false, [Check(MinLength(6), "New password must be at least 6 characters long")])
  ]

  const CreateProductRules: seq<Chain> := [
    Chain("name", false, [Check(NotEmpty, "Product name is required")]),
    Chain("description", false, [Check(MinLength(20), "Description must be at least 20 characters long")]),
    Chain("price", false, [Check(IsFloatAbove0, "Price must be a positive number")]),
    Chain("stock", false, [Check(IsIntMin0, "Stock must be a non-negative integer")]),
    Chain("sku", false, [Check(NotEmpty, "SKU is required")]),
    Chain("categoryId", false, [Check(NotEmpty, "Category ID is required")])
  ]

  const UpdateProductRules: seq<Chain> := [
    Chain("name", true, [Check(NotEmpty, "Product name cannot be empty")]),
    Chain("description", true, [Check(MinLength(20), "Description must be at least 20 characters long")]),
    Chain("price", true, [Check(IsFloatAbove0, "Price must be a positive number")]),
    Chain("stock", true, [Check(IsIntMin0, "Stock must be a non-negative integer")]),
    Chain("categoryId", true, [Check(NotEmpty, "Category ID cannot be empty")])
  ]

  /** `description` of a new category is only sanitized, never checked. */
  const CreateCategoryRules: seq<Chain> := [
    Chain("name", false, [Check(NotEmpty, "Category name is required")]),
    Chain("description", true, [])
  ]

  const UpdateCategoryRules: seq<Chain> := [
    Chain("name", true, [Check(NotEmpty, "Category name cannot be empty")]),
    Chain("isActive", true, [Check(IsBoolean, "isActive must be a boolean value")])
  ]

  /** Registration passes exactly with names of 2..50 characters, an
      e-mail-shaped e-mail and a password of at least six characters. */
  lemma RegisterAccepts(form: Form)
    ensures Validate(form, RegisterRules) == Next <==>
              && 2 <= |Value(form, "firstName")| <= 50
              && 2 <= |Value(form, "lastName")| <= 50
              && EmailShaped(Value(form, "email"))
              && |Value(form, "password")| >= 6
  {
    NameChainAccepts(form, 0);
    NameChainAccepts(form, 1);
    SatisfiedShort(form, RegisterRules[2]);
    SatisfiedShort(form, RegisterRules[3]);
    FourChains(form, RegisterRules);
  }

  /** A name chain of registration is satisfied exactly by a name of 2 to
      50 characters: its emptiness check adds nothing to the length check. */
  lemma NameChainAccepts(form: Form, i: nat)
    requires i < 2
    ensures Satisfied(form, RegisterRules[i]) <==> 2 <= |Value(form, RegisterRules[i].path)| <= 50
  {
    SatisfiedShort(form, RegisterRules[i]);
  }

  /** A list of four chains passes exactly when each of them is satisfied. */
  lemma FourChains(form: Form, c: seq<Chain>)
    requires |c| == 4
    ensures Validate(form, c) == Next <==>
              Satisfied(form, c[0]) && Satisfied(form, c[1]) && Satisfied(form, c[2]) && Satisfied(form, c[3])
  {
    if Validate(form, c) != Next {
      var i :| 0 <= i < 4 && !Satisfied(form, c[i]);
    }
  }

  /** Login passes exactly with an e-mail-shaped e-mail and a non-empty
      password. */
  lemma LoginAccepts(form: Form)
    ensures Validate(form, LoginRules) == Next <==>
              EmailShaped(Value(form, "email")) && Value(form, "password") != ""
  {
    SatisfiedShort(form, LoginRules[0]);
    SatisfiedShort(form, LoginRules[1]);
  }

  /** A password change passes exactly with a non-empty old password and a
      new one of at least six characters. */
  lemma ChangePasswordAccepts(form: Form)
    ensures Validate(form, ChangePasswordRules) == Next <==>
              Value(form, "oldPassword") != "" && |Value(form, "newPassword")| >= 6
  {
    SatisfiedShort(form, ChangePasswordRules[0]);
    SatisfiedShort(form, ChangePasswordRules[1]);
  }

  /** The rule each product field must meet when it is checked. */
  predicate ProductFieldOk(form: Form, path: string)
  {
    match path
    case "name" => Value(form, path) != ""
    case "description" => |Value(form, path)| >= 20
    case "price" => PositiveFloat(Value(form, path))
    case "stock" => NonNegativeInt(Value(form, path))
    case _ => Value(form, path) != ""
  }

  /** Creating a product passes exactly when every field meets its rule:
      non-empty name, sku and category, a description of at least 20
      characters, a positive price and a non-negative integer stock. */
  lemma CreateProductAccepts(form: Form)
    ensures Validate(form, CreateProductRules) == Next <==>
              && ProductFieldOk(form, "name") && ProductFieldOk(form, "description")
              && ProductFieldOk(form, "price") && ProductFieldOk(form, "stock")
              && ProductFieldOk(form, "sku") && ProductFieldOk(form, "categoryId")
  {
    SatisfiedShort(form, CreateProductRules[0]);
    SatisfiedShort(form, CreateProductRules[1]);
    SatisfiedShort(form, CreateProductRules[2]);
    SatisfiedShort(form, CreateProductRules[3]);
    SatisfiedShort(form, CreateProductRules[4]);
    SatisfiedShort(form, CreateProductRules[5]);
    SixChains(form, CreateProductRules);
  }

  /** A list of six chains passes exactly when each of them is satisfied. */
  lemma SixChains(form: Form, c: seq<Chain>)
    requires |c| == 6
    ensures Validate(form, c) == Next <==>
              && Satisfied(form, c[0]) && Satisfied(form, c[1]) && Satisfied(form, c[2])
              && Satisfied(form, c[3]) && Satisfied(form, c[4]) && Satisfied(form, c[5])
  {
    var e := Errors(form, c);
    if Validate(form, c) != Next {
      var i :| 0 <= i < 6 && !Satisfied(form, c[i]);
    }
  }

  /** A product update passes exactly when every field it carries meets the
      same rule as on creation; absent fields are not checked. */
  lemma UpdateProductAccepts(form: Form)
    ensures Validate(form, UpdateProductRules) == Next <==>
              && ("name" in form ==> ProductFieldOk(form, "name"))
              && ("description" in form ==> ProductFieldOk(form, "description"))
              && ("price" in form ==> ProductFieldOk(form, "price"))
              && ("stock" in form ==> ProductFieldOk(form, "stock"))
              && ("categoryId" in form ==> ProductFieldOk(form, "categoryId"))
  {
    SatisfiedShort(form, UpdateProductRules[0]);
    SatisfiedShort(form, UpdateProductRules[1]);
    SatisfiedShort(form, UpdateProductRules[2]);
    SatisfiedShort(form, UpdateProductRules[3]);
    SatisfiedShort(form, UpdateProductRules[4]);
  }

  /** Any body that may create a product may also update one. */
  lemma CreatableIsUpdatable(form: Form)
    requires Validate(form, CreateProductRules) == Next
    ensures Validate(form, UpdateProductRules) == Next
  {
    CreateProductAccepts(form);
    UpdateProductAccepts(form);
  }

  /** Creating a category passes exactly with a non-empty name. */
  lemma CreateCategoryAccepts(form: Form)
    ensures Validate(form, CreateCategoryRules) == Next <==> Value(form, "name") != ""
  {
    SatisfiedShort(form, CreateCategoryRules[0]);
    SatisfiedShort(form, CreateCategoryRules[1]);
  }

  /** A category update passes exactly when a name, if sent, is non-empty
      and `isActive`, if sent, is one of the four boolean spellings. */
  lemma UpdateCategoryAccepts(form: Form)
    ensures Validate(form, UpdateCategoryRules) == Next <==>
              && ("name" in form ==> form["name"] != "")
              && ("isActive" in form ==> form["isActive"] in ["true", "false", "1", "0"])
  {
    SatisfiedShort(form, UpdateCategoryRules[0]);
    SatisfiedShort(form, UpdateCategoryRules[1]);
  }

  /** A chain reports every validator that fails, not only the first: a
      registration without a first name gets both the required message and
      the length message for it. */
  lemma MissingFirstNameTwice(form: Form)
    requires "firstName" !in form
    ensures ChainErrors(form, RegisterRules[0])
              == [FieldError("firstName", "First name is required"), FieldError("firstName", DefaultMessage)]
  {
    var c := RegisterRules[0];
    assert Failures(c.checks[1..], "") == [DefaultMessage];
  }

  /** The product validators ask less of a description than the schema:
      a body with a 20-character description passes them, yet its product
      would fail the 50-character minimum when saved. */
  lemma DescriptionGap()
    ensures var form := GapForm();
            Validate(form, CreateProductRules) == Next && |form["description"]| < 50
  {
    var form := GapForm();
    PriceFive();
    StockOne();
    assert Value(form, "name") == "Tv" && Value(form, "sku") == "s" && Value(form, "categoryId") == "c";
    assert Value(form, "price") == "5" && Value(form, "stock") == "1";
    assert |Value(form, "description")| == 20;
    assert ProductFieldOk(form, "name") && ProductFieldOk(form, "description");
    assert ProductFieldOk(form, "price") && ProductFieldOk(form, "stock");
    assert ProductFieldOk(form, "sku") && ProductFieldOk(form, "categoryId");
    CreateProductAccepts(form);
  }

  /** A product body with a 20-character description. */
  function GapForm(): Form
  {
    map["name" := "Tv", "description" := "abcdefghijklmnopqrst", "price" := "5",
        "stock" := "1", "sku" := "s", "categoryId" := "c"]
  }

  lemma PriceFive()
    ensures PositiveFloat("5")
  {
    assert DigitsFrom("5", 1) == 0;
    assert DigitsFrom("5", 0) == 1;
    assert MantissaEnd("5") == 1;
    assert '1' <= "5"[0] <= '9';
  }

  lemma StockOne()
    ensures NonNegativeInt("1")
  {
    assert DigitsFrom("1", 1) == 0;
    assert DigitsFrom("1", 0) == 1;
  }

  /** Float numerals: a decimal with a fraction and one with an exponent are
      positive prices; zero, a negative number and a numeral with two
      points are not. */
  lemma PriceWithFraction()
    ensures PositiveFloat("19.99")
  {
    var s := "19.99";
    assert DigitsFrom(s, 5) == 0;
    assert DigitsFrom(s, 3) == 2;
    assert DigitsFrom(s, 2) == 0;
    assert DigitsFrom(s, 0) == 2;
    assert MantissaEnd(s) == 5;
    assert '1' <= s[0] <= '9';
  }

  /** A string that is digits from `i` on is one run of digits. */
  lemma {:induction false} DigitRun(s: string, i: nat)
    requires i <= |s|
    requires forall k :: i <= k < |s| ==> IsDigit(s[k])
    ensures DigitsFrom(s, i) == |s| - i
    decreases |s| - i
  {
    if i < |s| {
      DigitRun(s, i + 1);
    }
  }

  /** Every non-empty string of plain digits is an acceptable stock, and an
      acceptable price exactly when one of its digits is not zero. */
  lemma DigitsAreNumbers(s: string)
    requires s != [] && forall k :: 0 <= k < |s| ==> IsDigit(s[k])
    ensures NonNegativeInt(s)
    ensures PositiveFloat(s) <==> exists k :: 0 <= k < |s| && s[k] != '0'
  {
    DigitRun(s, 0);
    assert SignLength(s) == 0;
    assert MantissaEnd(s) == |s|;
    assert s !in ["", ".", "+", "-"] by {
      assert IsDigit(s[0]);
    }
    if exists k :: 0 <= k < |s| && s[k] != '0' {
      var k :| 0 <= k < |s| && s[k] != '0';
      assert IsDigit(s[k]);
    }
  }

  lemma PriceWithExponent()
    ensures PositiveFloat("2e3")
  {
    var s := "2e3";
    assert DigitsFrom(s, 3) == 0;
    assert DigitsFrom(s, 2) == 1;
    assert DigitsFrom(s, 1) == 0;
    assert DigitsFrom(s, 0) == 1;
    assert MantissaEnd(s) == 1;
    assert '1' <= s[0] <= '9';
  }

  lemma PriceRejected()
    ensures !PositiveFloat("0") && !PositiveFloat("-4") && !PositiveFloat("1.2.3")
  {
    assert DigitsFrom("0", 1) == 0;
    assert DigitsFrom("0", 0) == 1;
    assert MantissaEnd("0") == 1;
    var t := "1.2.3";
    assert DigitsFrom(t, 3) == 0;
    assert DigitsFrom(t, 2) == 1;
    assert DigitsFrom(t, 1) == 0;
    assert DigitsFrom(t, 0) == 1;
    assert MantissaEnd(t) == 3;
  }
}
