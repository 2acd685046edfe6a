# ARDOUR utils.h: control-list helpers and f_max

This project models the parts of ARDOUR's `libs/ardour/ardour/utils.h` that have bodies in the header:

- `route_list_to_control_list` and `stripable_list_to_control_list`. Each allocates a new, empty control list. It then walks a list of routes or stripables in order, calls a member-function accessor on each item, and appends every non-null automation control the accessor returns. The route variant takes a shared pointer to the route list and returns the empty list when that pointer is null.
- `f_max`, the branch-free maximum `((x - a) + |x - a|) * 0.5 + a`.

How the model represents them:

- A route or stripable is an opaque type parameter `Item`. An automation control is an opaque type parameter `Control`.
- The accessor is a total function `Item -> Option<Control>`. `None` is the null shared pointer. The source's accessor is a `const` member function, so the model treats it as having no side effects.
- The nullable `RouteList` pointer is `Option<seq<Item>>`. The stripable list, passed by reference and only read, is a `seq<Item>`.
- Both helpers are methods with a loop that appends to a `seq<Control>` accumulator. Each is proved equal to the recursive specification `FilterMap`. Lemmas about `FilterMap` give its length, the order it keeps and where each element comes from.
- `f_max` is a method over `real` that repeats the source's four updates of its local variable. It is proved equal to the reference `Max`.

Files: `wrappers.dfy` (the `Option` type) and `utils.dfy` (module `Utils`).

## Model

| member | source | states |
|---|---|---|
| Utils.Abs | libs/ardour/ardour/utils.h:60 | `fabsf` over reals: the result is non-negative and is either the argument or its negation |
| Utils.Max | libs/ardour/ardour/utils.h:58-65 | the reference maximum: at least both arguments and equal to one of them |
| Utils.FMax | libs/ardour/ardour/utils.h:58-65 | the four step-by-step updates of `x` give `Max(x, a)`, so the result is at least x, at least a, and equal to one of them |
| Utils.FilterMap | libs/ardour/ardour/utils.h:182-187 | the in-order accessor results with nulls dropped, never longer than the input |
| Utils.FilterMapConcat | libs/ardour/ardour/utils.h:193-198 | processing `a` and then `b` gives the same list as processing `a + b`, which is what makes appending in a loop correct |
| Utils.FilterMapStep | libs/ardour/ardour/utils.h:194-197 | one more item appends its control when non-null and leaves the list unchanged when null |
| Utils.FilterMapLengthExact | libs/ardour/ardour/utils.h:182-187 | the result has the input's length if and only if the accessor is non-null on every item; in that case element i is item i's control |
| Utils.FilterMapKeeps | libs/ardour/ardour/utils.h:183-186 | every item with a non-null control has that control in the result, at the position given by the count of earlier non-null items |
| Utils.FilterMapPreservesOrder | libs/ardour/ardour/utils.h:182-186 | for items i < j that both have controls, the control of i comes strictly before the control of j |
| Utils.FilterMapOrigin | libs/ardour/ardour/utils.h:184-185 | every element of the result is the non-null control of some input item, and sits at that item's position; no element is null or invented |
| Utils.StripableListToControlList | libs/ardour/ardour/utils.h:191-200 | starts from an empty list and appends in order; the loop keeps "the list is `FilterMap` of the first k items", so the result equals `FilterMap` of the whole list |
| Utils.RouteListToControlList | libs/ardour/ardour/utils.h:179-189 | a null route list gives the empty list; otherwise the result equals `FilterMap` of the routes |
| Utils.RouteAndStripableAgree | libs/ardour/ardour/utils.h:179-200 | on a non-null route list, both helpers return the same list |

## Left out

- Shared-pointer ownership and reference counts: a control list is a value, so the model does not capture that each call allocates a distinct `ControlList` object. A value cannot be aliased, which stands in for "fresh".
- The template parameter `T` and the conversion from `shared_ptr<T>` to `shared_ptr<AutomationControl>` at lines 183 and 194: the accessor yields the control type directly.
- FMax: does not model single-precision float rounding in `f_max`. Over floats, `x - a` can round or overflow, so the result can differ from the exact maximum.
- `gain_to_slider_position` and `slider_position_to_gain` (lines 87-151): built from `log`, `pow`, `exp`, nested `sqrt` and fitted floating-point polynomials, which the model cannot reason about. Only the "0 maps to 0" guards could be stated.
- Functions that are only declared in this header, with no body in it: `legalize_for_path`, `legalize_for_universal_path`, `legalize_for_uri`, `legalize_for_path_2X`, `find_named_node`, `bool_as_string`, `bump_name_once`, `bump_name_number`, `cmp_nocase`, `cmp_nocase_utf8`, `region_name_from_path`, `path_is_paired`, `compute_equal_power_fades`, `sync_source_to_string`, `string_to_sync_source`, `edit_mode_to_string`, `string_to_edit_mode`, `gain_to_slider_position_with_max`, `slider_position_to_gain_with_max`, `meter_falloff_to_float`, `meter_falloff_from_float`, `meter_falloff_to_db_per_sec`, `native_header_format_extension`, `matching_unsuffixed_filename_exists_in`, `how_many_dsp_threads`, `CFStringRefToStdString`. Their implementations are not part of this model, so a contract for them would be invented.
- The `METER_FALLOFF_*` constants (lines 162-168): plain data with no logic attached in this header.
