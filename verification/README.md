# Asset records of the BitShares ledger, modelled in Dafny

This project models the asset record of the BitShares blockchain library and what it does with it:

- the issuance arithmetic on a record: `available_shares` and both `can_issue` overloads;
- the conversion between share amounts and their decimal text at the record's precision: `asset_from_string` and `amount_to_string`;
- the record's `sanity_check`;
- the asset store's `lookup` (by id and by symbol), `store` and `remove`. The store keeps an id → record map and a symbol → id index in step.

`share_type` is a signed 64-bit integer. The overflow guard in `can_issue` relies on its arithmetic wrapping around, and the model assumes that it does: `Int64.Wrap` reduces a result modulo 2^64 into [-2^63, 2^63 - 1]. C++ leaves signed overflow undefined; see `Int64.Wrap` under "Left out". The record's `precision` is an unsigned 64-bit value in the source. The model gives it as a `nat`, so the magnitude `amount_to_string` takes of the most negative amount is 2^63.

Files and modules:

- `wrappers.dfy` (`Wrappers`): the `Option` type.
- `int64.dfy` (`Int64`): the 64-bit range and `Wrap`.
- `decimal.dfy` (`Decimal`): the library routines the core calls, plus digit-string arithmetic. The routines are `atoll`, `fc::to_string`, `fc::to_pretty_string` and `is_power_of_ten`; the arithmetic covers powers of ten, digit values, padding and truncation.
- `asset_record.dfy` (`AssetRecords`): the record, the issuance arithmetic and the sanity check. The check reports the first rule a record breaks.
- `asset_conversions.dfy` (`AssetConversions`): `asset_from_string` and `amount_to_string`.
  - `asset_from_string` is a method. Its three normalising loops run in the helper method `NormalizeFraction`; the sign-dependent fraction step runs in `AddFraction`. Both helpers are proved against specification functions.
  - `amount_to_string` is a function.
  - The module also holds the lemmas relating the two directions.
- `asset_db.dfy` (`AssetStore`): the store as the class `AssetDb`. It has two map fields, `Store` and `Remove` methods, and `Valid()`: the symbol index is exactly the inverse of the records' symbol field. Value-level functions and lemmas state what `store` and `remove` do to the two maps.

## Model

| member | source | states |
|---|---|---|
| Int64.Wrap | libraries/blockchain/asset_record.cpp:21 | a 64-bit result equals the exact value when that is in range, and is 2^64 below or above it after one overflow or underflow |
| Int64.WrapCongruent | libraries/blockchain/asset_record.cpp:21 | the wrapped value always differs from the exact one by a multiple of 2^64 |
| AssetRecords.AvailableShares | libraries/blockchain/asset_record.cpp:7-10 | for a record with 0 <= current <= maximum, the remaining supply is maximum - current and lies in [0, maximum]; an oversupplied record gives a negative value |
| AssetRecords.CanIssue | libraries/blockchain/asset_record.cpp:18-24 | issuing is allowed exactly when amount > 0 and current + amount, computed without wrap-around, is at most the maximum |
| AssetRecords.OverflowRejected | libraries/blockchain/asset_record.cpp:21-23 | an exact sum beyond 2^63 - 1 wraps to sum - 2^64, below the old supply, so the monotonicity test rejects it whatever the maximum |
| AssetRecords.CanIssueAsset | libraries/blockchain/asset_record.cpp:12-16 | the asset overload is false for another asset id, and otherwise is exactly the `can_issue` condition on the amount |
| AssetRecords.SanityCheck | libraries/blockchain/asset_record.cpp:78-99 | the record passes exactly when all twelve rules hold; a failure names a rule the record breaks, and every rule checked before it holds |
| AssetRecords.SaneSupply | libraries/blockchain/asset_record.cpp:7-10 | on a record that passes the sanity check, the remaining supply is the plain non-negative difference, and `can_issue(a)` holds exactly when 0 < a <= the remaining supply |
| AssetRecords.SanityRejects | libraries/blockchain/asset_record.cpp:84-87 | a precision of 300, an empty symbol, current supply above the maximum, and collected fees above the current supply are each rejected |
| Decimal.IsPowerOfTen | libraries/blockchain/asset_record.cpp:84 | only values of at least 1 pass the power-of-ten test |
| Decimal.Log10 | libraries/blockchain/asset_record.cpp:84 | a precision that passes the test is 10^k for the k returned |
| Decimal.Pow10IsPowerOfTen | libraries/blockchain/asset_record.cpp:84 | every 10^k passes the test and has exponent k |
| Decimal.Atoll | libraries/blockchain/asset_record.cpp:33 | on a text of digits atoll gives the number they spell; a negative result needs a '-' in the text |
| Decimal.Dec | libraries/blockchain/asset_record.cpp:65 | plain decimal rendering is a non-empty digit string of the number's value, with no leading zero unless the number is 0 |
| Decimal.DecOfPow10Plus | libraries/blockchain/asset_record.cpp:65 | rendering 10^k + r, where r < 10^k, gives '1' followed by the k zero-padded digits of r |
| Decimal.PointedDigits | libraries/blockchain/asset_record.cpp:65-66 | overwriting that leading '1' with '.' leaves the point and the k digits of r |
| Decimal.LastDigitsValue | libraries/blockchain/asset_record.cpp:65 | the k zero-padded last digits of n spell n mod 10^k |
| Decimal.Pretty | libraries/blockchain/asset_record.cpp:67 | the grouped rendering starts with a digit and holds only digits and ',' |
| Decimal.DecSplit | libraries/blockchain/asset_record.cpp:67 | rendering q 10^k + r, with q >= 1 and r < 10^k, gives the digits of q followed by the k zero-padded digits of r |
| Decimal.PrettyUngrouped | libraries/blockchain/asset_record.cpp:67 | removing the ',' separators from the grouped rendering of n gives the plain rendering of n, so the integer part of an amount's text is worth \|amount\| / precision at any size |
| AssetConversions.FindChar | libraries/blockchain/asset_record.cpp:32 | the position found holds the first '.', with none before it; no position means there is no '.' at all |
| AssetConversions.ScaleUp | libraries/blockchain/asset_record.cpp:42-43 | the first loop stops at a value of at least the precision, never below where it started |
| AssetConversions.ScaleDown | libraries/blockchain/asset_record.cpp:44-45 | the second loop stops at a value in [0, precision), never above where it started |
| AssetConversions.DropLeadingZeros | libraries/blockchain/asset_record.cpp:46-50 | the leading-zero loop never increases the value or makes it negative |
| AssetConversions.IntegerAmount | libraries/blockchain/asset_record.cpp:33 | the integer part contributes its atoll value times the precision whenever that product fits in 64 bits, and contributes 0 whenever atoll reads 0, "-0" included |
| AssetConversions.ApplyFraction | libraries/blockchain/asset_record.cpp:52-55 | barring wrap-around, the amount keeps the integer part's sign and moves away from zero by exactly the fraction |
| AssetConversions.AmountFromString | libraries/blockchain/asset_record.cpp:26-60 | a text without a '.' is read as its integer part alone |
| AssetConversions.FractionPart | libraries/blockchain/asset_record.cpp:37-51 | the fraction's contribution always lies in [0, precision) |
| AssetConversions.NormalizeFraction | libraries/blockchain/asset_record.cpp:42-50 | the three loops leave what `ScaleUp`, `ScaleDown` and `DropLeadingZeros` describe, a value in [0, precision) |
| AssetConversions.AddFraction | libraries/blockchain/asset_record.cpp:37-56 | the fraction step leaves the amount adjusted as `ApplyFraction` describes, by the contribution `FractionPart` gives |
| AssetConversions.AssetFromString | libraries/blockchain/asset_record.cpp:26-60 | the result is an amount of the record's own asset, equal to `AmountFromString` of the text |
| AssetConversions.FractionAdjustment | libraries/blockchain/asset_record.cpp:40-55 | barring wrap-around, an empty or non-positive fraction is skipped; otherwise the fraction, below the precision, is added to a non-negative integer part and subtracted from a negative one |
| AssetConversions.ScaleUpIs | libraries/blockchain/asset_record.cpp:42-43 | the first loop multiplies by the least power of ten that reaches the precision |
| AssetConversions.ScaleDownIs | libraries/blockchain/asset_record.cpp:44-45 | the second loop divides by the least power of ten that brings the value below the precision |
| AssetConversions.DropLeadingZerosDivides | libraries/blockchain/asset_record.cpp:46-50 | the leading-zero loop divides by 10 raised to the number of leading '0' characters |
| AssetConversions.NormalizedValue | libraries/blockchain/asset_record.cpp:42-45 | at precision 10^k, a d-digit value is shifted left to k digits or truncated to its first k digits |
| AssetConversions.ShiftedByLeadingZeros | libraries/blockchain/asset_record.cpp:46-50 | after z leading zeros, the normalised value keeps the first k digits of the whole z + d digit text |
| AssetConversions.PadTruncateValue | libraries/blockchain/asset_record.cpp:42-50 | the first k digits of a digit text, zero-padded, are worth the value truncated or shifted to k digits |
| AssetConversions.FractionTruncates | libraries/blockchain/asset_record.cpp:30-50 | at precision 10^k, a digit fraction that atoll reads without overflow, with ten times the precision in 64 bits so the scaling loop cannot overflow, contributes exactly its first k digits, zero-padded: extra digits are truncated and leading zeros keep their place |
| AssetConversions.AmountFromDecimalText | libraries/blockchain/asset_record.cpp:26-60 | digits, '.', digits parse to integer part times 10^k plus the first k fractional digits, when that sum fits in 64 bits, the fraction's value fits in 64 bits and 10^(k+1) does too |
| AssetConversions.IntegerAmountExact | libraries/blockchain/asset_record.cpp:33 | an integer part whose product with the precision is in range contributes exactly that product |
| AssetConversions.DocumentedExample | libraries/blockchain/asset_record.cpp:30-31 | "100.500019" at precision 100000 is 10050001 |
| AssetConversions.LeadingZeroExample | libraries/blockchain/asset_record.cpp:46-50 | "100.05" at precision 1000000 is 100050000 |
| AssetConversions.NegativeBelowOneLosesSign | libraries/blockchain/asset_record.cpp:52-55 | as written, "-0.5" at precision 10 parses to +5 |
| AssetConversions.ReadsMinus | libraries/blockchain/asset_record.cpp:33 | the sign test atoll applies after leading blanks succeeds only on a text that holds a '-' |
| AssetConversions.AtollSign | libraries/blockchain/asset_record.cpp:33 | atoll gives a negative value only when it reads a minus, and never a positive one after reading it |
| AssetConversions.ApplyFractionBySign | libraries/blockchain/asset_record.cpp:52-55 | the fraction step with the sign taken from the text equals the step as written whenever the text's sign and the integer product's sign agree |
| AssetConversions.SignedAmountFromString | libraries/blockchain/asset_record.cpp:26-60 | the corrected parse equals the parse as written on a text without a '.', and on one whose integer part reads a minus exactly when its product is negative |
| AssetConversions.SignedAmountNegates | libraries/blockchain/asset_record.cpp:52-55 | with the sign read from the text, digits, '.', digits give integer times 10^k plus the first k fractional digits, and the same text behind '-' gives exactly the negation, under the same 64-bit bounds as `AmountFromDecimalText` |
| AssetConversions.NegativeBelowOneKeepsSign | libraries/blockchain/asset_record.cpp:52-55 | with the sign read from the text, "-0.5" at precision 10 parses to -5 |
| AssetConversions.Magnitude | libraries/blockchain/asset_record.cpp:64 | the shares formatted are the amount or its negation, never negative |
| AssetConversions.FractionalUnits | libraries/blockchain/asset_record.cpp:65 | the remainder is below the precision |
| AssetConversions.AmountToString | libraries/blockchain/asset_record.cpp:62-71 | the text is non-empty and starts with '-' exactly when the amount is negative |
| AssetConversions.AmountToStringShape | libraries/blockchain/asset_record.cpp:62-71 | at precision 10^k the text is an optional '-', the grouped integer part \|amount\| / 10^k, '.', the k zero-padded digits of \|amount\| mod 10^k, and " symbol" exactly when asked for |
| AssetConversions.FractionalDigits | libraries/blockchain/asset_record.cpp:65-66 | the fractional digits number one fewer than the digits of the precision and spell \|amount\| mod precision |
| AssetConversions.ShortAmountText | libraries/blockchain/asset_record.cpp:62-71 | below a thousand whole units no separator appears: the text is the sign, the plain integer part, '.', and the fractional digits |
| AssetConversions.RoundTrip | libraries/blockchain/asset_record.cpp:26-71 | at a precision 10^k with 10^(k+1) within 64 bits (k <= 17), a non-negative amount below a thousand whole units, formatted without its symbol, parses back to itself |
| AssetConversions.NegativeRoundTrip | libraries/blockchain/asset_record.cpp:26-71 | at a precision 10^k with 10^(k+1) within 64 bits (k <= 17), a negative amount of at least one and fewer than a thousand whole units, formatted without its symbol, parses back to itself, the most negative amount included |
| AssetConversions.RoundTripLosesSign | libraries/blockchain/asset_record.cpp:52-69 | as written, -5 at precision 10 is formatted "-0.5" and parses back as +5 |
| AssetConversions.SignedRoundTrip | libraries/blockchain/asset_record.cpp:26-71 | with the sign read from the text, at a precision 10^k with 10^(k+1) within 64 bits (k <= 17), every amount of magnitude below a thousand whole units parses back to itself, the most negative amount included |
| AssetConversions.SeparatorStopsParse | libraries/blockchain/asset_record.cpp:33 | 1000.0 units at precision 10 are formatted "1,000.0", and atoll stops at the ',', so the text parses back as 1.0 |
| AssetStore.FindById | libraries/blockchain/asset_record.cpp:101-104 | a record is found exactly when the id is stored, and it is the stored one |
| AssetStore.FindBySymbol | libraries/blockchain/asset_record.cpp:106-109 | in an exact index, a record is found exactly when the symbol is indexed; it carries that symbol and is the record under the indexed id |
| AssetStore.StoredSymbols | libraries/blockchain/asset_record.cpp:113-121 | after a store the record's symbol leads to its id, a replaced symbol of the same id is gone, and every other entry is unchanged |
| AssetStore.RemovedSymbols | libraries/blockchain/asset_record.cpp:126-131 | after a remove the stored record's symbol is gone and every other entry is unchanged |
| AssetStore.StorePreservesIndex | libraries/blockchain/asset_record.cpp:111-122 | storing a record whose symbol is free, or already its own, keeps the index exact |
| AssetStore.StoreClashBreaksIndex | libraries/blockchain/asset_record.cpp:111-122 | storing under a symbol another id owns breaks the index, and the symbol now leads to the new record |
| AssetStore.StoreThenLookup | libraries/blockchain/asset_record.cpp:111-122 | after a store, both lookups find the new record, a replaced symbol no longer resolves, and other ids are unchanged |
| AssetStore.RemovePreservesIndex | libraries/blockchain/asset_record.cpp:124-132 | removing keeps the index exact |
| AssetStore.RemoveThenLookup | libraries/blockchain/asset_record.cpp:124-132 | after a remove neither lookup finds the record, and other ids are unchanged |
| AssetStore.StoreThenRemoveRestores | libraries/blockchain/asset_record.cpp:111-132 | storing a new id with a fresh symbol and then removing it gives back both maps as they were |
| AssetStore.AssetDb.LookupById | libraries/blockchain/asset_record.cpp:101-104 | a record is found exactly when the id is in the id map, and it is the stored one |
| AssetStore.AssetDb.LookupBySymbol | libraries/blockchain/asset_record.cpp:106-109 | in a valid store, a record is found exactly when the symbol is indexed; it carries the symbol and is what the lookup by the indexed id returns |
| AssetStore.AssetDb.Store | libraries/blockchain/asset_record.cpp:111-122 | the id map gains id ↦ record; the symbol index loses a changed old symbol and gains symbol ↦ id, with nothing else changed; validity is kept and both lookups find the record when the symbol was free or already the id's own |
| AssetStore.AssetDb.Remove | libraries/blockchain/asset_record.cpp:124-132 | the id and its record's symbol leave both maps, with nothing else changed; nothing changes when the id is absent; validity is kept and neither lookup finds the record |

## Left out

- Int64.Wrap: the model assumes that signed 64-bit arithmetic wraps around. In C++ a signed overflow is undefined behaviour. This affects `maximum_share_supply - current_share_supply` (line 9), `current_share_supply + amount` (line 21), the fraction step (lines 53 and 55) and `-amount` of the most negative amount (line 64). The model takes the magnitude of that amount as 2^63, as the conversion to the unsigned precision's type gives. A compiler may fold the test `new_share_supply > current_share_supply` (line 23) into `amount > 0`. Then an issue that overflows passes `can_issue`, and `CanIssue` and `OverflowRejected` no longer describe the program.
- AssetConversions.AssetFromString: requires a positive precision. At precision 0 the second loop (lines 44-45) never ends once the fraction is positive. `sanity_check` rejects precision 0 (line 84), so a sane record never reaches this.
- AssetConversions.AmountToString: requires a positive precision. At precision 0, lines 65 and 67 divide by zero. `sanity_check` rejects such a record.
- `asset_record::db_interface` (lines 73-76) is not modelled: it only returns a field of the chain object.
- `FC_ASSERT` and `FC_CAPTURE_AND_RETHROW` exceptions are not modelled. The sanity check returns a `Verdict` naming the first rule broken; it carries no record snapshot.
- The existence of the issuer account is the `accountExists` predicate of a `Chain` parameter. The chain database behind it is not part of this model.
- The market issuer id and the two ledger-wide caps, `BTS_BLOCKCHAIN_MAX_SHARES` and `BTS_BLOCKCHAIN_MAX_UIA_MARKET_FEE`, are fields of `Chain`. Their values are not part of this model.
- The commented-out proposal and prediction checks (lines 90-96) are dead code and are not modelled.
- Decimal.Atoll: leading white space, an optional sign and the longest run of digits. Out-of-range overflow is not modelled; the value is unbounded. Locale-specific behaviour is not modelled either.
- AssetConversions.NormalizeFraction: the parsed fraction and its scaling by ten are unbounded integers. `fraction *= 10` can exceed 2^63 - 1 at precision 10^18, a signed overflow the C++ leaves undefined, and the model does not capture it. The integer part's product and the final addition are wrapped.
- Decimal.Pretty: `fc::to_pretty_string` is not visible. It is modelled as decimal rendering with ',' between groups of three digits. Only `SeparatorStopsParse`, `PrettyUngrouped` and the bound in the round-trip lemmas depend on this grouping.
- `NormalizeFraction` and `AddFraction` are helper methods that hold code the source writes inline in `asset_from_string`. The model does not capture the in-place `erase` of the fraction text: the loop advances over a suffix instead.
- RoundTrip: proved only below a thousand whole units, without the symbol, and at precisions up to 10^17. `NegativeRoundTrip` covers negative amounts of at least one whole unit. At precision 10^18, which `sanity_check` accepts, the round trip is not claimed. There, 0.95 units are written "0.950000000000000000", and `fraction *= 10` (line 43) takes 9.5·10^17 past 2^63 - 1. From a thousand units on the grouping separator stops the parse (`SeparatorStopsParse`), and a negative amount below one unit loses its sign (see Findings).
- AssetConversions.FractionTruncates: `AmountFromDecimalText` and `SignedAmountNegates` are also stated only where the program does not overflow. The fraction's value must fit in 64 bits, since beyond it `atoll` saturates. 10^(k+1) must fit as well, since beyond it `fraction *= 10` overflows. Beyond those bounds the model's unbounded fraction differs from the program.
- The store's primitive operations `lookup_by_id`, `lookup_by_symbol`, `insert_into_*` and `erase_from_*` are host-ledger callbacks. They are modelled as reads and updates of the two map fields of `AssetDb`. Durability, transactions and concurrent readers are not modelled.
- AssetStore.AssetDb.Store: validity is promised only when the new symbol is free or already owned by the same id. The source does not check this, and `StoreClashBreaksIndex` shows what happens otherwise.

## Findings

| source | as written | input that shows it | evidently intended | confidence | as-written member | corrected member |
|---|---|---|---|---|---|---|
| libraries/blockchain/asset_record.cpp:52-55 | the fraction is subtracted only when the integer part's product is negative, but that product is 0 for an integer part of "-0" | "-0.5" at precision 10 parses to +5, so `amount_to_string(-5)` = "-0.5" does not read back | take the sign from the text, so "-0.5" parses to -5 | not executed; high that the code behaves so, medium that it is unintended | AssetConversions.NegativeBelowOneLosesSign | AssetConversions.SignedAmountNegates |
