# octoprice: the Agile Octopus product selector

octoprice is a small Rust client for the Octopus Energy REST API. It downloads
the product listing (`/v1/products/`), decodes its `results` array into
`Product` records (`code`, `display_name`, `brand`), and picks the one product
whose brand is `OCTOPUS_ENERGY` and whose display name is `Agile Octopus`.
If the body does not decode, or if the number of matching products is not
exactly one, the program panics.

This Dafny project models that selector as pure functions, in two modules:

- `Json` (`json_value.dfy`): the already-parsed JSON value that the derived
  decoders read. It also holds `Parsed`, the outcome of the JSON library's text
  parser: either a value or `Malformed`.
- `Octoprice` (`octoprice.dfy`): the `Product` and `Products` records and the
  decoders that `#[derive(Deserialize)]` generates for them. It also holds the
  predicate `IsAgile`, the order-preserving filter `AgileProducts`, the
  exactly-one check `Select`, and the whole pipeline `GetProductFromString`.
  Lemmas about all of these sit beside them. The two panics become the
  `Selection` variants `DecodeFailed` and `NotExactlyOne(found)`.

Reference definitions used by the lemmas:

- `MatchIndices(s)` is the set of positions whose product matches.
- `MatchPositions(s)` is the same positions listed in increasing order.
- `EncodeProduct` / `EncodeProducts` build the JSON object that a record is
  read from. The decoders are proved to invert them.

The source panics where the model returns a failure. `expect` panics on a
failed parse; the model represents that panic as `DecodeFailed`. A failed
`assert_eq!` on the number of matches aborts the program; the model represents
it as `NotExactlyOne` carrying that number.

## Model

| member | source | states |
|---|---|---|
| Octoprice.DecodeProduct | src/main.rs:15-20 | A value decodes to a product exactly when it is an object whose `code`, `display_name` and `brand` members are all strings; the product's fields are those strings |
| Octoprice.DecodeEach | src/main.rs:11-12 | A `Vec<Product>` decodes exactly when every array element decodes; the result has the array's length and element i is what element i decodes to |
| Octoprice.DecodeProducts | src/main.rs:10-13 | A catalog decodes exactly when the value is an object with a `results` array whose every element decodes; the results keep the array's length and order |
| Octoprice.DecodeProductKeepsThreeFields | src/main.rs:15-20 | An object holding a product's three fields decodes to that product whatever other members it carries |
| Octoprice.DecodeProductIgnoresOtherMembers | src/main.rs:15-20 | Adding or replacing any member other than the three fields never changes what an object decodes to |
| Octoprice.DecodeEncodeProducts | src/main.rs:10-20 | Round trip: the listing object built from any catalog, with any other top-level members, decodes back to that catalog |
| Octoprice.AgileProducts | src/main.rs:25-28 | The filter keeps no more products than the catalog has, and every product it keeps matches the brand and display-name predicate |
| Octoprice.AgileProductsAppend | src/main.rs:25-28 | The filter of a concatenation is the concatenation of the filters, so catalog order is preserved |
| Octoprice.AgileProductsSingle | src/main.rs:25-28 | On a single product the filter keeps it exactly when it matches the predicate |
| Octoprice.AgileProductsAreSubsequence | src/main.rs:25-28 | The filtered list is the order-preserving subsequence of matches: its k-th element is the catalog element at the k-th matching position, positions increase, and a position is listed exactly when its product matches |
| Octoprice.AgileProductsCount | src/main.rs:120-124 | The filtered list's length equals the number of catalog positions whose product matches |
| Octoprice.AgileProductsMultiset | src/main.rs:25-28 | Every copy of a matching product is kept and no non-matching product is kept |
| Octoprice.AgileProductsIgnoreCodes | src/main.rs:25-27 | Catalogs that agree on every brand and display name have the same matching positions and the same number of matches, whatever their codes |
| Octoprice.Select | src/main.rs:25-30 | Selection never reports a decode failure; a selected product matches the predicate and is an element of the catalog; a reported count is never one |
| Octoprice.SelectExactlyOne | src/main.rs:29-30 | Selection succeeds if and only if exactly one catalog position matches; the product returned is the one at that position; on failure the count reported is the number of matches (zero, or two or more) |
| Octoprice.SelectSoleMatch | src/main.rs:29-30 | A catalog whose only match is at position i selects the product at position i |
| Octoprice.SelectIgnoresCodes | src/main.rs:25-30 | Changing product codes never changes whether selection succeeds or the count it reports; on success both catalogs select from the same position |
| Octoprice.GetProductFromString | src/main.rs:23-31 | The pipeline fails with a decode failure exactly when the body is not JSON or not a catalog; it never returns a default product: a returned product is a matching element of the decoded catalog; once the catalog decodes, it succeeds if and only if exactly one catalog position matches, returns the product at that position, and otherwise fails with the number of matches |
| Octoprice.DecodeAgileObject | src/main.rs:66-98 | The full Agile product object of the decoding test, with `direction`, `links`, `is_green` and the other unread members, decodes to the Agile product |
| Octoprice.SelectFromListing | src/main.rs:129-144 | A listing with the Agile product (code `AGILE-FLEX-22-11-25`) and one other Octopus product selects the Agile product |

## Left out

- `main` only prints a greeting and never calls the selector, so it is not modelled.
- `get_products` is not modelled. It is an HTTP GET through reqwest plus a read of the body as text, which is network I/O.
- `get_product` is not modelled apart from the call it forwards. It prints the raw body and passes it to the selector, which `GetProductFromString` covers.
- JSON text parsing by `serde_json::from_str` is foreign library code. The model takes its outcome as an input: `Parsed(value)` or `Malformed`. String escapes, number syntax and trailing input are therefore not modelled.
- JSON objects are maps, so an object with a repeated member name cannot be represented. serde's derived decoder rejects a duplicate `code`, `display_name` or `brand` in a product, and a duplicate `results` in the listing; the model does not show that rejection.
- serde's derived decoders also accept a struct written as a JSON array of its fields in declaration order. The model decodes only the object form.
- JSON numbers are kept as their literal text because no decoded field is a number.
- The panic messages ("Could not parse product json" and the `assert_eq!` report) are not modelled. Only the kind of failure and the match count are kept.
- The tests read `resources/test/sample_products.json` from disk and call the live API from a tokio test. That fixture file is not part of this model. `SelectFromListing` uses a two-product listing in its place.
