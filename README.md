# Galois fields and Reed–Solomon erasure coding

This is a Dafny model of the Swift library `Galois`. The library does exact arithmetic in finite fields. Two erasure coders are built on it.

- **The field contract** (`Galois/protocols.swift`) gives every field:
  - the elements `zero` and `one`;
  - a range-checked conversion from an integer;
  - `degree`, the index of the highest set bit;
  - the compound assignments `*=` and `/=`.

  In the model a field is a value of the datatype `Fields.Field`: an element count and the
  arrows `add`, `sub`, `mul`, `div` and `rcp` over naturals. `Fields.IsField` collects the field
  laws that the coders rely on.
- **The prime field GF(p)** (`Galois/prime.swift`) does arithmetic modulo `p`.
  - Its reciprocal is the integer extended Euclidean algorithm. `Prime.Reciprocal` is that loop,
    proved against the value `Prime.Rcp`.
  - `PrimeGF.GF` packages the prime field as a `Field`. `PrimeGF.PrimeIsField` proves it a field
    whenever `p` is prime.
- **The reference binary field GF(2^d)** (`Galois/reference.swift`) uses shift-and-add
  carry-less multiplication in a w-bit register, reduced by the field polynomial. Its reciprocal
  is a binary-polynomial extended Euclidean loop.
  - The independent specification of the product is `GF2Poly.MulMod`: the carry-less product
    `Bits.Clmul` reduced by `GF2Poly.PolyMod`.
  - `Reference.Mul` and `Reference.Reciprocal` are the register loops, proved against it.
- **The table fields GF8 and GF16** (`Galois/gf8.swift`, `Galois/gf16.swift`) are classes whose
  fields are the tables that `generateTables` fills and `destroyTables` empties.
  - Both are built from the log/exp tables of `Tables.Generate`.
  - Every lookup is proved equal to `MulMod` and its inverse.
  - `BinaryGF.GF` packages GF(2)[x]/(poly) as a `Field`. `BinaryGF.BinaryIsField` proves it a
    field for a primitive polynomial. `BinaryGF.GF8Agrees` and `BinaryGF.GF16Agrees` show that the
    table classes compute exactly its operations.
- **The Cauchy coder** (`cauchy.swift`) has two parts.
  - `Cauchy.Matrix` and `Cauchy.CauchyInverse` are the Cauchy matrix entry and the closed-form
    entry of its inverse.
  - The encode and decode loops are `Cauchy.Encode` and `Cauchy.Decode`.
  - `CauchyProof.RoundTrip` proves that decoding gives the message back for any K distinct
    admissible rows. `PrimeGF.CauchyExample` runs the configuration of the file: GF(257), K = 7,
    N = 29.
- **The Lagrange coder** (`example.swift`) works as follows.
  - `Lagrange.LagrangeInterpolation` is the nested interpolation loop, proved against
    `Lagrange.Interpolate`.
  - `Example.Run` encodes K symbols into N, keeps any K of them and decodes. It is proved to give
    the message back over any field.
  - `BinaryGF.LagrangeExample` runs it on GF8 tables, as the file does: `BinaryGF.TableField` is
    the field whose product, quotient and reciprocal are the lookups in `mul` and `inv`, and
    `BinaryGF.TableFieldIsField` proves it a field.
- **The earlier copies** map onto the same definitions.
  - `galois.swift` is an all-in-one version of the library.
  - `testbench.swift` holds the older fields and the exhaustive equivalence harness.
  - `galois_field.swift` is a single generic reference field.
  - The register step with the width of the storage type and the pre-truncated polynomial
    constants are both covered by `Reference.RegisterMulX`. The harness is `Testbench.RunGF8` and
    `Testbench.RunGF16`.
  - These copied loops are modelled by the same members as the library's own:
    - `Reference.RegisterMulX`: also galois_field.swift:25-43;
    - `Reference.Mul`: also galois.swift:204-223 and testbench.swift:183-202;
    - `Reference.Reciprocal`: also testbench.swift:206-231 and galois_field.swift:47-74;
    - `GF8.GF8.Generate`: also galois.swift:65-102 and testbench.swift:49-85;
    - `GF16.GF16.Generate`: also testbench.swift:117-137;
    - `GF16.GF16.Mul`: also galois.swift:161-168;
    - `GF16.GF16.Div`: also galois.swift:178-186.

Field elements are naturals below the field's count. XOR, shifts and w-bit register truncation are
explicit functions on naturals in `Bits`.

## Model

| member | source | states |
|---|---|---|
| Fields.Zero | Galois/protocols.swift:22-25 | `zero` is an element, adding it changes nothing and multiplying by it gives zero |
| Fields.One | Galois/protocols.swift:26-29 | `one` is an element other than `zero`, and multiplying by it changes nothing |
| Fields.MulAssign | Galois/protocols.swift:30-33 | `x *= y` leaves the product in x; for a nonzero y, dividing by y gives the old x back |
| Fields.DivAssign | Galois/protocols.swift:34-37 | `x /= y` needs a nonzero y and leaves the quotient in x; multiplying by y gives the old x back |
| Fields.AddAssign | galois_field.swift:22-24 | `x += y` leaves the sum in x; subtracting y gives the old x back |
| Fields.FromInt | Galois/protocols.swift:42-46 | the conversion accepts exactly the integers in 0 ..< count and keeps their value |
| Bits.DegreeBounds | Galois/protocols.swift:38-41 | for x > 0, `degree(x)` is the index of the highest set bit: 2^degree <= x < 2^(degree+1) |
| Prime.Add | Galois/prime.swift:15-17 | the sum modulo p is below p, and it is a + b or a + b - p |
| Prime.Sub | Galois/prime.swift:19-21 | the dividend a - b + p is never negative; the difference is below p and adding b back gives a |
| Prime.Mul | Galois/prime.swift:23-25 | the product is below p and differs from a·b by a multiple of p |
| Prime.SubSelf | Galois/prime.swift:19-21 | a - a == 0 |
| Prime.SubAdd | Galois/prime.swift:15-21 | subtracting b undoes adding b |
| Prime.CofactorInverts | Galois/prime.swift:32-43 | from any state of the Euclidean loop the final cofactor is below p in absolute value; for a prime p, once moved into [0, p), it inverts the value |
| Prime.Rcp | Galois/prime.swift:26-44 | the reciprocal is below p; for a prime p its product with the value is 1 |
| Prime.Reciprocal | Galois/prime.swift:26-44 | the loop rejects 0, maps 1 to 1, keeps the Bézout identities of its remainders, ends with remainder 1 (the `r <= 1` assertion holds for a prime p) and returns the value's inverse modulo p, the same value as `Rcp` |
| PrimeGF.PrimeIsField | Galois/prime.swift:11-44 | for a prime p, GF(p) with these operations (count p) satisfies every field law: closure, commutativity, associativity, distributivity, zero, one, subtraction and division undo addition and multiplication |
| PrimeGF.MulAssocMod | Galois/prime.swift:23-25 | the modular product is associative |
| PrimeGF.DistribMod | Galois/prime.swift:15-25 | the modular product distributes over the modular sum |
| PrimeGF.Prime257 | cauchy.swift:45-48 | 257, the modulus of the example, is prime |
| PrimeGF.RowsAdmissible | cauchy.swift:52-65 | in GF(p), when 2K + N <= p + 1, no candidate row K .. K+N-1 plus a column below K is zero, so every Cauchy entry is defined |
| PrimeGF.CauchyExample | cauchy.swift:50-90 | over GF(257) with K = 7 and N = 29, any 7 distinct received rows decode the message to itself |
| Reference.Count | Galois/reference.swift:11-13 | the elements are exactly the naturals of degree below the degree of the polynomial, i.e. those below 2^d |
| Reference.RegisterMulX | Galois/reference.swift:25-30 | the register step (w-bit shift, XOR the truncated polynomial if bit d-1 was set) is multiplication by x modulo poly, and stays below 2^d |
| Reference.Mul | Galois/reference.swift:15-34 | the shift-and-add loop with the operand swap returns the reduced carry-less product of its operands |
| Reference.Reciprocal | Galois/reference.swift:36-61 | for an irreducible polynomial and a nonzero value the binary Euclidean loop ends, and its result times the value is 1 |
| Reference.Div | Galois/reference.swift:63-65 | the quotient by a nonzero divisor is the element that, multiplied by the divisor, gives the dividend |
| GF2Poly.MulModComm | Galois/reference.swift:18-21 | the reduced product is commutative, so swapping the operands does not change it |
| GF2Poly.MulModAssoc | Galois/reference.swift:15-34 | the reduced product is associative |
| GF2Poly.MulModXor | Galois/reference.swift:15-34 | the reduced product distributes over XOR |
| GF2Poly.InverseUnique | Galois/reference.swift:36-61 | a nonzero element has at most one inverse, so every reciprocal algorithm returns the same element |
| Tables.Generate | Galois/gf8.swift:16-36 | the generator loop fills `exp[i] = x^i` and `log[x^i] = i` for i < max, with the sentinels `log[0] == max` and `exp[max] == 0` |
| Tables.GeneratedStep | Galois/gf8.swift:27-36 | one step enters a nonzero power not entered before, so the log entries already written survive |
| Tables.PrimitiveIrreducible | Galois/gf8.swift:16-36 | a primitive polynomial is irreducible, so the reference reciprocal loop terminates for it |
| Tables.TableMulCorrect | Galois/gf16.swift:51-57 | `exp[(log a + log b) mod max]`, with zero for a zero operand, is the reduced product |
| Tables.TableReciprocalCorrect | Galois/gf16.swift:64-65 | for 1 < a the index max - log a is in (0, max), and `exp` at it inverts a |
| Tables.TableDivCorrect | Galois/gf16.swift:73-74 | `log a - log b + max` is in [0, 2 max), and `exp` at it modulo max is the quotient a / b |
| Tables.PowPeriod | Galois/gf8.swift:43 | given x^max == 1, adding max to an exponent does not change the power, so the table indices may be taken mod max |
| GF8.MulRow | Galois/gf8.swift:38-46 | each row of `mul` holds the reduced products of its index with every element |
| GF8.InvTableOf | Galois/gf8.swift:47-52 | `inv[0] == 0`, `inv[1] == 1`, and every other entry inverts its index |
| GF8.MulSymmetric | Galois/gf8.swift:37-46 | the multiplication table is symmetric |
| GF8.GF8.Count | Galois/gf8.swift:13-15 | once generated, the count is 2^d |
| GF8.GF8.Generate | Galois/gf8.swift:16-53 | after generation for a primitive polynomial of degree <= 8 the tables are valid and count == 2^d |
| GF8.GF8.Destroy | Galois/gf8.swift:54-57 | both tables are emptied and the count becomes 0 |
| GF8.GF8.Add | Galois/gf8.swift:58-61 | the XOR of two elements is an element; that it is the sum of GF(2)[x]/(poly) is `BinaryGF.GF8Agrees`, and its laws are `BinaryGF.BinaryAddLaws` |
| GF8.GF8.Sub | Galois/gf8.swift:62-65 | subtraction is addition, so adding b back to a - b gives a |
| GF8.GF8.Mul | Galois/gf8.swift:66-69 | the table entry is the reduced product |
| GF8.GF8.Reciprocal | Galois/gf8.swift:70-74 | the reciprocal of a nonzero element is an element whose product with it is 1; 1 is its own reciprocal |
| GF8.GF8.Div | Galois/gf8.swift:75-79 | the quotient by a nonzero divisor times the divisor is the dividend |
| GF16.GF16.Count | Galois/gf16.swift:12-15 | once generated, the count is 2^d |
| GF16.GF16.Generate | Galois/gf16.swift:16-37 | after generation for a primitive polynomial of degree <= 16 the tables are valid, count == 2^d, `log[0] == max` and `exp[max] == 0` |
| GF16.GF16.Destroy | Galois/gf16.swift:38-41 | both tables are emptied and the count becomes 0 |
| GF16.GF16.Add | Galois/gf16.swift:42-45 | the XOR of two elements is an element; that it is the sum of GF(2)[x]/(poly) is `BinaryGF.GF16Agrees`, and its laws are `BinaryGF.BinaryAddLaws` |
| GF16.GF16.Sub | Galois/gf16.swift:46-49 | subtraction is addition, so adding b back to a - b gives a |
| GF16.GF16.Mul | Galois/gf16.swift:50-57 | the log/exp product, zero for a zero operand, is the reduced product |
| GF16.GF16.Reciprocal | Galois/gf16.swift:58-66 | the reciprocal of a nonzero element inverts it, and 1 maps to 1 |
| GF16.GF16.Div | Galois/gf16.swift:67-75 | the quotient by a nonzero divisor times the divisor is the dividend, and 0 / b and a / 1 return a unchanged |
| BinaryGF.Rcp | Galois/gf16.swift:58-66 | a^(2^d - 2) is an element, and for a primitive polynomial it inverts every nonzero a |
| BinaryGF.BinaryAddLaws | galois.swift:24-31 | XOR addition, with subtraction equal to addition, is commutative and associative, has 0 as identity and undoes itself |
| BinaryGF.BinaryIsField | Galois/reference.swift:11-65 | for a primitive polynomial, GF(2)[x]/(poly) with XOR and the reduced product satisfies every field law |
| BinaryGF.GF8Agrees | Galois/gf8.swift:58-79 | every GF8 operation on generated tables equals the operation of GF(2)[x]/(poly): +, -, *, the reciprocal and / |
| BinaryGF.GF16Agrees | Galois/gf16.swift:42-75 | every GF16 operation on generated tables equals the operation of GF(2)[x]/(poly) |
| BinaryGF.TableFieldIsField | Galois/gf8.swift:58-79 | the XOR sum and the `mul`/`inv` lookups of valid GF8 tables agree with GF(2)[x]/(poly) on every element, so they satisfy every field law |
| BinaryGF.LagrangeExample | example.swift:24-66 | with the lookups of GF8 tables of a primitive polynomial of at least 29 elements as the arithmetic, K = 7 and N = 29, any 7 received symbols decode to the message |
| Testbench.PolynomialDegrees | testbench.swift:242-281 | each polynomial constant has degree `bits` (19/4, 285/8, 16427/14, 69643/16, 4299161607/32) and `max` 2^bits - 1 |
| Testbench.TruncatedPolynomials | galois_field.swift:91 | the pre-truncated constants are 285 → 29, 69643 → 4107 and 4299161607 → 4194311 |
| Testbench.RunGF8 | testbench.swift:300-325 | generating GF8 tables, comparing every product, quotient and reciprocal with the reference field, and destroying the tables passes every check and leaves count 0 |
| Testbench.RunGF16 | testbench.swift:300-325 | the same exhaustive comparison for the GF16 tables |
| Cauchy.Matrix | cauchy.swift:9-12 | the entry is the reciprocal of row + col, defined when that sum is nonzero |
| Cauchy.DivisorNonzero | cauchy.swift:26 | with pairwise distinct rows and rows[j] + col_i nonzero, the divisor (rows[j] + col_i)·prod_x·prod_y is nonzero |
| Cauchy.CauchyInverse | cauchy.swift:13-27 | the loop accumulates prod_xy over all k, prod_x over k != j and prod_y over k != i, and returns prod_xy divided by the nonzero divisor |
| Cauchy.EncodeSymbol | cauchy.swift:72-74 | the inner encoder loop leaves in `sum` the sum over all columns j of mesg[j] times the Cauchy entry of the row and column j |
| Cauchy.DecodeSymbol | cauchy.swift:81-83 | the inner decoder loop leaves in `sum` the sum over all received symbols j of code[j] times the inverse entry (i, j) |
| Cauchy.DecodeSumStep | cauchy.swift:82 | adding code[j] times the inverse entry (i, j) to the running sum over j symbols gives the running sum over j + 1 |
| Cauchy.Encode | cauchy.swift:69-75 | code symbol i is the sum over the columns j of message symbol j times the Cauchy entry of received row i and column j |
| Cauchy.Decode | cauchy.swift:78-84 | message symbol i is the sum over the received symbols j of symbol j times the inverse entry (i, j) |
| CauchyProof.RoundTrip | cauchy.swift:87-90 | for any K distinct admissible rows, the decoder's sum over the encoder's code symbols is the original message symbol |
| CauchyRun.ReceivedRows | cauchy.swift:61-66 | distinct picks among the candidate rows give distinct, admissible received rows |
| CauchyRun.Run | cauchy.swift:52-90 | encoding for any K distinct admissible rows and decoding gives the message back, over any field |
| Lagrange.DenNonzero | example.swift:16-19 | with distinct positions no denominator of a basis polynomial is zero, so the division is defined |
| Lagrange.LagrangeInterpolation | example.swift:9-22 | the nested loop returns the sum over j of y_j·Π(point − x_m)/Π(x_j − x_m), and zero for no nodes |
| Lagrange.BasisFactors | example.swift:12-18 | the inner loop leaves num = y_j·Π(point − x_m) and den = Π(x_j − x_m), both over m != j |
| Lagrange.PartialStep | example.swift:19 | adding num / den of node j to the running sum over j nodes gives the running sum over j + 1 |
| Lagrange.InterpolateAtNode | example.swift:9-22 | at a node's own position interpolation gives that node's value |
| Interpolation.InterpolateExact | example.swift:9-22 | nodes lying on a polynomial with no more coefficients than nodes interpolate to that polynomial everywhere |
| Example.CodewordIsSystematic | example.swift:45-49 | the first K code symbols are the message itself |
| Example.Encode | example.swift:45-49 | code symbol i sits at position i and carries the interpolation of the message at i |
| Example.Decode | example.swift:56-60 | decoded symbol i is the interpolation of the received symbols at i |
| Example.RoundTrip | example.swift:53-66 | any K code symbols at distinct positions interpolate at 0 .. K-1 to the message |
| Example.Run | example.swift:36-66 | encoding, keeping any K distinct symbols and decoding gives the message back, over any field with at least N elements |

## Left out

- Printing and timing are not modelled: every `print`, `description`, `printElapsedTime` and the
  benchmark script of galois_field.swift. They carry no algorithmic content.
- Randomness is not modelled. The random message symbols and the shuffled choice of received rows
  or symbols are method parameters: `symbols`, and `picks`, which is an arbitrary injective choice.
- Primitivity of a polynomial is a precondition and never proved for a constant: the library
  itself never checks it. So `Primitive(285)` and `Primitive(16427)` are assumed by the table
  classes' callers, not shown. The exhaustive GF(2^4) check with polynomial 19 is not part of
  this model.
- BinaryGF.LagrangeExample: takes GF8 tables already generated for a primitive polynomial
  instead of generating them for 285, because the primitivity of 285 is not proved.
- Reference.Reciprocal: requires an irreducible polynomial. For any other the source loop need not
  end, so the model does not describe it.
- Prime.Reciprocal: requires a prime modulus, so the failing `assert r <= 1` for a composite
  modulus is not modelled as a path. `Prime.Rcp`, the value, is defined for any modulus.
- `/` of the prime field and `+`/`-` of the reference field are not defined in prime.swift or
  reference.swift; they live elsewhere in the library. They are
  modelled as multiplication by the reciprocal and as XOR, following the other fields of the
  library. This is an assumption of the model.
- The configurations that are commented out are not run as examples: GF(65537), GF16 with 16427
  and the 32-bit reference field. The generic `CauchyRun.Run` and `Example.Run` cover them given
  a field proof.
- Concurrency around the process-wide static tables is not modelled. The tables are fields of a
  caller-owned object.
- Fixed-width integer types are not modelled as types. Values are naturals below the field count.
  Register truncation is the explicit `Bits.Shl`/`Bits.Low`, so an out-of-range `init` is excluded
  by `< Count()` preconditions rather than trapped.
- Prime.Mul: the product is unbounded. Galois/prime.swift:24 multiplies `Int(left.value) *
  Int(right.value)` in 64-bit `Int`. With 32-bit storage and a modulus above about 3.04·10^9
  (4294967291, say), that product can exceed 2^63 - 1 and trap. The model does not capture
  this overflow.
- GF8.GF8.Add and GF16.GF16.Add: the contract states only that the sum is an element. That it is
  XOR is stated by `BinaryGF.GF8Agrees` and `BinaryGF.GF16Agrees`.
- Swift protocol plumbing (`TableGeneratable`, associated types, `@_transparent`) has no
  counterpart. The coders are generic over the `Field` value instead.
