# Coordinate frames, from the robot description to the pose of a link

A Dafny model of the coordinate-frame pipeline. A robot description is parsed into links and joints. The robot
lists its transforms. The robot state publisher throttles and stamps them. A frame graph stores them in one time
buffer per edge and answers queries. A viewer computes the same poses on its own. A byte codec carries the
messages between them.

The classes (`TransformBuffer`, `FrameGraph`, `Joint`, `RobotModel`, `RobotStatePublisher`, `Viewer`) keep the
fields and the loops of the program. Each method is proved against a function on values. What the program promises
is proved of those functions, for every input, every run of updates and every run of callbacks. The main results:

- `Pipeline.Operate` with `RobotStatePublishers.NodeKinematics`, `NodePast`, `NodeBetween`, `NodeLinks`: after any run
  of joint messages, throttled as the publisher does it, a graph that listens answers for each link with the product of
  the joints above it, as they were sent last, or at the stamp of any publication it still holds, or as blended between
  two of them; and between any two links with the joints on the way from one to the other.
- `ActualKinematics.ShownRightIff`: such a product is where the robot really is exactly when its mimic joints stand at
  their origins.
- `Kinematics.EndToEnd`, `Wire.EndToEndOverWire`: so does a fresh graph fed with one message, or with its bytes.
- `ForwardKinematics.ViewerAgrees`, `Pipeline.Show`: the viewer's recursion finds the same poses.
- `Samples.ReplayIsWindow`: after any run of inserts a buffer is the sorted listing of the last write to each stamp
  in its window.
- `Samples.ScanStraight`, `Republishing.PastBlend`, `PastProportion`: a lookup between two stamps goes evenly from the
  one to the other, in a buffer and in a graph that is fed.
- `FrameTrees.ApplyExact`, `BufferIsWindow`, `FramesNeverMove`: when an update is accepted, and what every reachable
  graph is.
- `FrameTrees.RelativeFromRoot`, `RelativeIsPoseIff`, `RelativeComposesIff`: what a query between two frames means, when
  it is their relative pose, and when queries between three frames compose.
- `RobotWalk.WalkEndsIff`, `WalkMeetsPromise`, `WalkPreorder.WalkIsPreorder`: when the walk over a robot ends, and in
  which order it lists the joints.
- `Joints.StateIsComposite`, `MovesFromOrigin`, `RigidLookups.JointStands`: what a joint reports through its mimic chain,
  and where its motion puts it.
- `Joints.ChainEndsIff`, `RobotStructure.ClimbStopsIff`: when following mimic names and climbing from a link end.
- `RobotStatePublishers.RunPicks`, `PicksUnique`, `NeverStale`: which messages the throttle answers, by their stamps
  alone; `RateBound`, `BufferBound`, `RunSpacedIff`: what it guarantees, and its exception.
- `Codec.RoundTrip`, `Canonical`, `PrefixFails`, `OverrunsIff`: for every message schema, both directions of the codec,
  and which schemas are never read past the input.

Conventions: times and durations are whole nanoseconds, and a time that was never set is 0; in a message a time is its
whole seconds and the nanoseconds left over. Transforms are any group with an interpolation (`TransformAlgebra`);
`RigidTransforms` shows that rotation matrices with translations are such a group, and not a commutative one. Turning
a message into a matrix and back is taken as exact. Words are stored with the lowest byte first. `hide` statements
only keep definitions away from the solver.

Where the code does less than one might expect, the model follows the code. A lemma gives the case, and another says
exactly when it happens:

| what fails | the case | exactly when |
|---|---|---|
| the walk over a robot ends | `RobotWalk.SameNameNeverEnds` | `RobotWalk.WalkEndsIff` |
| following mimic joints ends | `RobotStructure.MimicCycleNeverEnds` | `Joints.ChainEndsIff` |
| climbing from a link ends | `RobotStructure.JointCycleNeverEnds` | `RobotStructure.ClimbStopsIff` |
| a link above which there is a joint is no root | `RobotStructure.EmptyNameMisread` | `RobotStructure.RootsHonestIff` |
| a query is the relative pose | `RigidLookups.LawsFail` | `FrameTrees.RelativeIsPoseIff` |
| queries compose | `RigidLookups.LawsFail` | `FrameTrees.RelativeComposesIff` |
| published stamps are a period apart | `RobotStatePublishers.ZeroStampUnthrottled` | `RobotStatePublishers.RunSpacedIff`, `GuardedIff` |
| links are shown where they are | `ActualKinematics.MimicMisplaced` | `ActualKinematics.ShownRightIff` |
| decoding stays inside the input | `Codec.Overruns` | `Codec.OverrunsIff` |

The header promises that `update` is false if at least one transform failed; the code stops at the first failure and
keeps what came before it, which is what `ApplyAll` does.

## Model

| member | source | states |
|---|---|---|
| RigidTransforms.RigidIsGroup | src/rix/robot/eigen_util.cpp:38-44 | rotation matrices with translations, composed as affine transforms are, satisfy the group laws that the frame theorems assume |
| RigidTransforms.NotCommutative | src/rix/tf/frame_graph.cpp:168 | the order in which edge transforms are multiplied matters |
| RigidTransforms.MovedPoint | src/rix/robot/eigen_util.cpp:38-44 | a rigid transform takes a point to the matrix applied to it, coordinate by coordinate, plus the translation |
| RigidTransforms.ProductMoves | src/rix/tf/frame_graph.cpp:168 | a product takes a point where its right factor does, and from there where its left factor does |
| RigidTransforms.MovedUnique | src/rix/robot/eigen_util.cpp:38-44 | a rigid transform is known by where it takes points, so this fixes the product |
| Samples.PutMeaning | src/rix/tf/transform_buffer.cpp:33-44 | an insert changes what the buffer holds at its own stamp and at no other |
| Samples.PruneMeaning | src/rix/tf/transform_buffer.cpp:54-59 | pruning drops exactly the stamps older than the limit and keeps the order |
| Samples.NewestKept | src/rix/tf/transform_buffer.cpp:54-59 | pruning never removes the newest sample: the buffer's last stamp is the newest ever written |
| Samples.InsertMeaning | src/rix/tf/transform_buffer.cpp:32-60 | one insert into a buffer that represents a run represents the run with one more write |
| Samples.ReplayIsWindow | src/rix/tf/transform_buffer.cpp:32-60 | after any run of inserts with one duration, the buffer is the strictly increasing listing of the last write to each stamp in the window |
| Samples.ReplayInterval | src/rix/tf/transform_buffer.cpp:50-59 | with a positive duration the window is the closed interval of that length ending at the newest stamp written |
| Samples.SortedUnique | src/rix/tf/transform_buffer.cpp:32-60 | a sorted buffer is determined by what it holds at each stamp |
| Samples.OrderIrrelevant | src/rix/tf/transform_buffer.cpp:32-60 | runs that make the same writes, each stamp once, leave the same buffer in whatever order |
| Samples.ScanMeaning | src/rix/tf/transform_buffer.cpp:71-112 | a lookup clamps outside the stored stamps, is exact on one, and between two neighbours blends those two with a ratio strictly between 0 and 1 |
| Samples.ScanBlends | src/rix/tf/transform_buffer.cpp:106-111 | the ratio times the gap between the two stamps is the time since the earlier one |
| Samples.ScanStraight | src/rix/tf/transform_buffer.cpp:71-112 | a coordinate that blends linearly and is stored on a straight line over the time is looked up on that line at every time within the stored stamps |
| Samples.BracketExists | src/rix/tf/transform_buffer.cpp:81-98 | a time inside the stored range is bracketed by exactly one neighbouring pair |
| Samples.ScanWithinBounds | src/rix/tf/transform_buffer.cpp:71-112 | a looked-up coordinate that blends linearly stays within the bounds of the stored ones |
| Samples.ScanMonotone | src/rix/tf/transform_buffer.cpp:71-112 | where stored coordinates increase with the stamps, looked-up ones increase with the query time |
| RigidLookups.TranslationBounded | src/rix/robot/eigen_util.cpp:70-76 | per axis, the translation of an interpolated rigid transform stays within the stored ones |
| RigidLookups.TranslationStraight | src/rix/robot/eigen_util.cpp:70-76 | per axis, if the stored translations lie on a straight line over the time, so does the interpolated one |
| RigidLookups.RotationBlends | src/rix/robot/eigen_util.cpp:70-76 | between two neighbours the rotation is interpolated by the part of the gap between their stamps that has gone by |
| RigidLookups.RigidLinear | src/rix/robot/eigen_util.cpp:70-76 | each coordinate of the translation blends linearly in the algebra of rigid transforms |
| RigidLookups.JointStands | src/rix/robot/joint.cpp:115-135 | a turning joint stands where its origin is at every position, turned further by the angle about its axis; a sliding one keeps its origin's rotation and stands where the origin takes the point so far along the axis |
| RigidLookups.TranslationMonotone | src/rix/robot/eigen_util.cpp:70-76 | per axis, the interpolated translation follows the query time where the stored ones increase throughout, or decrease throughout |
| TransformBuffers.TransformBuffer.LowerBound | src/rix/tf/transform_buffer.cpp:33-37 | the binary search finds the first position whose stamp is not before the time |
| TransformBuffers.PutAt | src/rix/tf/transform_buffer.cpp:39-44 | replacing or inserting at that position is the linear-scan insert |
| TransformBuffers.TransformBuffer.Insert | src/rix/tf/transform_buffer.cpp:32-60 | the deque after an insert is the linear-scan insert and pruning of the deque before it |
| TransformBuffers.TransformBuffer.PopOlderThan | src/rix/tf/transform_buffer.cpp:57-59 | the pruning loop drops the leading samples older than the limit |
| TransformBuffers.TransformBuffer.Get | src/rix/tf/transform_buffer.cpp:63-113 | a lookup is nothing for an empty buffer, the newest sample for time 0, and otherwise the linear scan; the guards at lines 92 and 101 never fire |
| TransformBuffers.TransformBuffer.SetDuration | src/rix/tf/transform_buffer.cpp:121 | a new duration leaves the samples alone until the next insert |
| FrameTrees.ApplyKeeps | src/rix/tf/frame_graph.cpp:49-104 | an update keeps a tree in which parents precede children, names are distinct and no edge is empty; it never moves a frame, touches no other edge, and changes nothing when rejected |
| FrameTrees.ApplyExact | src/rix/tf/frame_graph.cpp:49-104 | an update is accepted exactly when the parent is known and the child is new or hangs there already; then, and only then, the child hangs under that parent afterwards; it adds no frame but a new child and writes to the child's edge alone |
| FrameTrees.AfterWellFormed | src/rix/tf/frame_graph.cpp:49-104 | so every state reachable by single updates is such a tree, rooted at index 0 |
| FrameTrees.FramesNeverMove | src/rix/tf/frame_graph.cpp:74-88 | along any run frames are only added: names, indices and parents of earlier states stay |
| FrameTrees.ApplyAllIsRun | src/rix/tf/frame_graph.cpp:41-46 | a TF message does what its entries up to the first one do that is not acceptable where it comes |
| FrameTrees.BufferIsWindow | src/rix/tf/frame_graph.cpp:101-102 | in every reachable graph each edge holds exactly the window of the transforms that were acceptable for its frame when they came |
| FrameTrees.ChildrenExact | src/rix/tf/frame_graph.cpp:90-99 | a frame is listed under another exactly when that is its parent, and once |
| FrameTrees.NearestIsCommon | src/rix/tf/frame_graph.cpp:199-231 | the nearest ancestor is an ancestor of both frames |
| FrameTrees.NearestIsNearest | src/rix/tf/frame_graph.cpp:199-231 | every common ancestor is an ancestor of the nearest one, which has the greatest index of them |
| FrameTrees.NearestSymmetric | src/rix/tf/frame_graph.cpp:199-231 | the search is symmetric, and gives a frame that is an ancestor of the other |
| FrameTrees.AncestorsOrdered | src/rix/tf/frame_graph.cpp:277-280 | comparing indices orders the ancestors of a frame by ancestry |
| FrameTrees.QuerySucceeds | src/rix/tf/frame_graph.cpp:107-180 | in every reachable graph no edge is empty, so a query succeeds exactly for equal names, which it answers with the identity, or two known ones, which it answers with the relative transform of their frames |
| FrameTrees.DownComposes | src/rix/tf/frame_graph.cpp:159-171 | the product down a path is the product of its two parts |
| FrameTrees.RelativeSwap | src/rix/tf/frame_graph.cpp:182 | swapping target and source inverts the answer |
| FrameTrees.RelativeToAncestor | src/rix/tf/frame_graph.cpp:159-182 | against an ancestor the answer is the product of the edges below it |
| FrameTrees.RelativeTelescopes | src/rix/tf/frame_graph.cpp:159-182 | answers multiply down a chain of ancestors |
| FrameTrees.RelativeComposesIff | src/rix/tf/frame_graph.cpp:182 | for any three frames, the answers compose exactly when the way down to where the inner pair meets commutes with the answer for that pair |
| FrameTrees.RelativeComposes | src/rix/tf/frame_graph.cpp:182 | so answers between three frames that meet in one ancestor compose |
| FrameTrees.RelativeFromRoot | src/rix/tf/frame_graph.cpp:126-182 | conjugated by the way from the root to the meeting point, the answer is the quotient of the root-based products |
| FrameTrees.RelativeIsPoseIff | src/rix/tf/frame_graph.cpp:182 | the answer is the root-based inverse of the source times the target exactly when the two paths' products commute, as they do on one branch |
| RigidLookups.LawsFail | src/rix/tf/frame_graph.cpp:182 | concrete rigid transforms, and graphs that two and three updates build, for which neither criterion is met: siblings are not related by their relative pose, and three frames do not compose |
| FrameTrees.LeavesExact | src/rix/tf/frame_graph.cpp:31-39 | the leaf list names exactly the non-root frames that are no frame's parent, each once |
| FrameTrees.LeavesInOrder | src/rix/tf/frame_graph.cpp:31-39 | the leaves come in the order of their indices |
| FrameGraphs.FrameGraph.constructor | src/rix/tf/frame_graph.cpp:8-11 | a new graph is the one-frame tree |
| FrameGraphs.FrameGraph.Exists | src/rix/tf/frame_graph.cpp:26 | a name exists exactly when a frame has it |
| FrameGraphs.FrameGraph.Find | src/rix/tf/frame_graph.cpp:190-196 | the name index finds the frame of that name, or the end |
| FrameGraphs.FrameGraph.GetLeaves | src/rix/tf/frame_graph.cpp:31-39 | the scan for short lists returns the leaves of the tree in index order |
| FrameGraphs.FrameGraph.UpdateAll | src/rix/tf/frame_graph.cpp:41-46 | a TF message is applied up to its first rejected entry |
| FrameGraphs.FrameGraph.Update | src/rix/tf/frame_graph.cpp:49-104 | an update does what the tree update does; a rejected one changes nothing but possibly the root's missing slot |
| FrameGraphs.FrameGraph.FillSlot | src/rix/tf/frame_graph.cpp:56-72 | only the root can lack its slot, which becomes -1, so the search for another frame's parent never runs |
| FrameGraphs.FrameGraph.AddChild | src/rix/tf/frame_graph.cpp:76-102 | a new child is pushed, indexed, listed under its parent and given its first sample |
| FrameGraphs.LinksHang | src/rix/tf/frame_graph.cpp:77-99 | pushing a frame and listing it keeps parent slots and child lists mirrored |
| FrameGraphs.LinksSlot | src/rix/tf/frame_graph.cpp:56-72 | a list can be empty only at index 0, and filling it in keeps the mirror |
| FrameGraphs.FrameGraph.ListsChild | src/rix/tf/frame_graph.cpp:90-96 | the scan finds a child exactly when the list after the slot holds it |
| FrameGraphs.FrameGraph.ParentOf | src/rix/tf/frame_graph.cpp:206-214 | the stored slot is the parent in the tree, or -1 at the root |
| FrameGraphs.FrameGraph.StepUp | src/rix/tf/frame_graph.cpp:258-263 | decrementing an iterator goes to the parent, which is smaller; at the root and at the end it stays |
| FrameGraphs.FrameGraph.MarkAncestors | src/rix/tf/frame_graph.cpp:216-220 | the first climb marks exactly the ancestors |
| FrameGraphs.FrameGraph.FirstMarked | src/rix/tf/frame_graph.cpp:222-230 | the second climb stops at the nearest common ancestor |
| FrameGraphs.FrameGraph.FindNearestAncestor | src/rix/tf/frame_graph.cpp:199-231 | the search ends, with the nearest common ancestor of two known frames and the end otherwise |
| FrameGraphs.FrameGraph.BuildPath | src/rix/tf/frame_graph.cpp:131-148 | the path from an ancestor down to a frame, or nothing when it is no ancestor |
| FrameGraphs.FrameGraph.ComputeTransform | src/rix/tf/frame_graph.cpp:159-171 | the loop multiplies the edges of a path in order and never meets an empty buffer |
| FrameGraphs.FrameGraph.GetTransform | src/rix/tf/frame_graph.cpp:107-188 | the answer is the query on the tree with both frame names and the time filled in; a failure leaves the message alone |
| FrameGraphs.FrameGraph.Between | src/rix/tf/frame_graph.cpp:126-182 | between two known frames the computation is the relative transform of the tree |
| Joints.ChainEndsIff | src/rix/robot/joint.cpp:137-151 | following mimic names ends exactly when every name met is a joint and none is met twice, and then within as many steps as there are joints |
| RobotStructure.MimicCycleNeverEnds | src/rix/robot/robot_model.cpp:713-718 | two joints that mimic each other pass the parse, and following either never ends |
| Joints.StateIsComposite | src/rix/robot/joint.cpp:137-151 | a joint's position is its driver's times one multiplier plus one offset, composed over its chain; its velocity and effort likewise |
| Joints.MimicReports | src/rix/robot/joint.cpp:137-151 | a mimic joint reports the position of the joint it follows times its multiplier plus its offset; velocity and effort likewise |
| Joints.SetAffectsExactly | src/rix/robot/joint.cpp:153-161 | setting a joint moves exactly the joints whose chain ends there with a composite multiplier that is not 0, in position, velocity and effort alike |
| Joints.SetAllExact | src/rix/robot/robot_model.cpp:274-290 | after a message a joint has the state of the last entry that names it; one that none names, and a mimic joint, keep what they had |
| Joints.SetAllDecides | src/rix/robot/robot_model.cpp:274-290 | a message decides the state of each joint it names that has one |
| Joints.TransferAgrees | src/rix/robot/robot_model.cpp:225-290 | one model's complete report makes a second model of the same structure report the same for every joint |
| Joints.Joint.GetState | src/rix/robot/joint.cpp:137-151 | the recursion through the mimic pointers ends and is the state over mimic names: each number of a mimic joint is the followed joint's times the multiplier plus the offset |
| Joints.Joint.Position | src/rix/robot/joint.cpp:89-95 | position() agrees with get_state: for a mimic joint, the followed joint's position times the multiplier plus the offset |
| Joints.Joint.Velocity | src/rix/robot/joint.cpp:96-102 | velocity() agrees with get_state: for a mimic joint, the followed joint's velocity times the multiplier plus the offset |
| Joints.Joint.SetState | src/rix/robot/joint.cpp:153-161 | a mimic joint ignores a new state, any other takes it |
| Joints.MovesFromOrigin | src/rix/robot/joint.cpp:115-135 | seen from its origin, a joint is moved by its turn or its slide to the position; a fixed joint and one without an axis are not moved |
| RobotStructure.ParsedConsistent | src/rix/robot/robot_model.cpp:698-730 | after a complete parse of distinctly and non-emptily named joints, a link's parent is the joint that ends there and its children are the joints that start there |
| RobotStructure.JointMapExact | src/rix/robot/robot_model.cpp:707 | of several joints with one name the first is kept |
| RobotStructure.RootOfExact | src/rix/robot/robot_model.cpp:728 | the root is the last link above which no joint with a name ends, and there is none exactly when every link has one |
| RobotStructure.ParentMapExact | src/rix/robot/robot_model.cpp:708-709 | the parent map sends each link to the one joint that ends there |
| RobotStructure.ChildrenOfExact | src/rix/robot/robot_model.cpp:710 | a link's children are exactly the joints that start there, each once |
| RobotStructure.ChildrenOfInOrder | src/rix/robot/robot_model.cpp:710 | they come in the order of the file, whatever the names |
| RobotStructure.RootsHonestIff | src/rix/robot/robot_model.cpp:511-515 | links count as roots exactly when no joint ends there, unless a joint with an empty name ends at a declared link |
| RobotStructure.EmptyNameMisread | src/rix/robot/robot_model.cpp:511-515 | a joint with an empty name passes the parse, and the link below it becomes the root |
| RobotStructure.RootCount | src/rix/robot/robot_model.cpp:698-730 | with all ends declared, the number of parentless links is the number of links minus the number of joints |
| RobotStructure.CountsGiveSingleRoot | src/rix/robot/robot_model.cpp:728 | with one link more than joints the root is the only root |
| RobotStructure.AllReachable | src/rix/robot/robot_model.cpp:698-730 | one root and no cycle make every link reachable from the root |
| RobotStructure.ClimbStopsIff | src/rix/robot/robot_model.cpp:132-151 | climbing from a link ends exactly when it never comes back to a link, and then within as many joints as there are links |
| RobotStructure.ChainAbove | src/rix/robot/robot_model.cpp:132-159 | in any model, the last joint of a chain is the one above the link, each earlier one is above the link where the next starts, and at the first the climb stops |
| RobotStructure.JointCycleNeverEnds | src/rix/robot/robot_model.cpp:132-151 | two joints that close a circle beside the root pass the parse, and climbing from it never ends |
| RobotStructure.ChainLinked | src/rix/robot/robot_model.cpp:121-159 | in a chain each joint ends where the next starts, the first starts at a link without a parent or undeclared, the last ends at the link; empty exactly for unknown and parentless links |
| RobotStructure.ChainDistinct | src/rix/robot/robot_model.cpp:121-159 | no joint occurs twice in a chain |
| RobotStructure.ClimbBound | src/rix/robot/robot_model.cpp:121-159 | so in a consistent model a climb that ends passes no more joints than there are |
| RobotStructure.DepthIsChainLength | src/rix/robot/robot_model.cpp:121-159 | a link reached from the root by n joints has a chain of n joints that starts at the root |
| RobotWalk.WalkEndsIff | src/rix/robot/robot_model.cpp:185-219 | for every model, the stack runs empty exactly when no link that is reached from the root through pushed links lies below itself |
| RobotWalk.WalkPops | src/rix/robot/robot_model.cpp:188-195 | a popped link is declared and was never expanded before |
| RobotWalk.WalkEmits | src/rix/robot/robot_model.cpp:197-218 | an emitted joint is new, follows the one that introduces its parent, and its end was never on the stack |
| RobotWalk.WalkEnds | src/rix/robot/robot_model.cpp:185-219 | when the stack is empty the joints below reachable links have been emitted, each once, parents first, and no others |
| RobotWalk.WalkMeetsPromise | src/rix/robot/robot_model.cpp:185-219 | over a consistent model the walk emits every joint below a reachable link once, parents first, and no others |
| RobotWalk.WalkTerminates | src/rix/robot/robot_model.cpp:185-219 | a consistent model has no such link, so the stack runs empty, whatever cycles the root does not reach |
| RobotWalk.WalkOrderUnique | src/rix/robot/robot_model.cpp:185-219 | a model has only one emission order, so all publications of a robot list the same frames |
| WalkPreorder.WalkIsPreorder | src/rix/robot/robot_model.cpp:185-219 | in every model on which the walk ends, it lists the joints below a link in the order of the file and then what is below their ends, the last one first: a recursion over the links that knows no stack |
| RobotWalk.EntriesCounted | src/rix/robot/robot_model.cpp:170-214 | the listed transforms are numbered from 0, in 32 bits |
| RobotWalk.SameNameNeverEnds | src/rix/robot/robot_model.cpp:707-710 | a two-joint description with a repeated name passes the parse and gives a stack that is never empty, because a link lies below itself |
| RobotWalk.SameNameMayEnd | src/rix/robot/robot_model.cpp:707-710 | a repeated name alone does not do that: the model is not consistent, and yet the walk ends, listing one joint twice |
| RobotModels.RobotModel.ParseJrdf | src/rix/robot/robot_model.cpp:680-732 | the three ways a parse ends and when; a complete one leaves the parsed model with wired joints at rest; the others leave an invalid one without links, holding the joints up to and including the first that ends where an earlier one does, or all of them |
| RobotModels.RobotModel.ParseJoints | src/rix/robot/robot_model.cpp:702-711 | the joint loop fails exactly on two joints with one end, having filed the joints so far, and otherwise fills the joint, parent and children maps |
| RobotModels.RobotModel.InsertJoint | src/rix/robot/robot_model.cpp:707 | a joint is filed under its name unless the name is taken |
| RobotModels.RobotModel.WireMimics | src/rix/robot/robot_model.cpp:714-718 | every mimic joint points to the joint it names, or the loop throws exactly when one names none |
| RobotModels.RobotModel.ParseLinks | src/rix/robot/robot_model.cpp:725-730 | the links carry the joints above and below them; the last parentless one is the root |
| NameOrder.BeforeIff | src/rix/robot/robot_model.cpp:110-118 | one name is visited before another exactly when it ends, or has the smaller character, where the two first differ |
| RobotModels.RobotModel.GetEndEffectors | src/rix/robot/robot_model.cpp:110-118 | exactly the links without children, each once, in the order of their names |
| RobotModels.RobotModel.GetJointsInChain | src/rix/robot/robot_model.cpp:121-159 | from every link from which the climb ends, the joints of the link's chain, topmost first |
| RobotModels.RobotModel.ClimbFrom | src/rix/robot/robot_model.cpp:132-151 | the climb pushes the chain from the bottom and stops where it ends |
| RobotModels.RobotModel.GetTransforms | src/rix/robot/robot_model.cpp:162-222 | nothing for an invalid model; over every model on which the walk ends, world to root and then the joints in the walk's order, with sequence numbers and the transform or, for mimic joints, the origin; over a consistent one each joint below a reachable link once |
| RobotModels.RobotModel.WalkLinks | src/rix/robot/robot_model.cpp:185-221 | the outer loop over the stack is that walk, step by step |
| RobotModels.RobotModel.ExpandLink | src/rix/robot/robot_model.cpp:197-218 | the inner loop emits a link's joints in order, passes over unknown names, and pushes declared ends |
| RobotModels.RobotModel.GetJointStates | src/rix/robot/robot_model.cpp:225-234 | one state for every joint, as the joint reports it, in the order of the names |
| RobotModels.RobotModel.SetStateAll | src/rix/robot/robot_model.cpp:274-278 | the states of a message are set in order |
| RobotModels.RobotModel.SetState | src/rix/robot/robot_model.cpp:280-290 | the named joint takes the state, unless it is unknown or a mimic joint; no other joint changes |
| RobotModels.Transfer | src/rix/robot/robot_model.cpp:225-290 | one model's reported states, set in a second model of the same structure, make every joint of the second report what the first one's does |
| Kinematics.ParsedProper | src/rix/robot/robot_model.cpp:680-732 | which descriptions give a robot that the end-to-end results apply to |
| Kinematics.ProperExists | src/rix/robot/robot_model.cpp:680-732 | the smallest robot with a joint is such a description |
| Kinematics.TransformsHang | src/rix/robot/robot_model.cpp:173-219 | every listed transform introduces a new frame under the world or under an earlier entry's frame |
| Kinematics.BuiltTree | src/rix/tf/frame_graph.cpp:74-102 | from such a list a fresh graph gets one frame per entry with that entry as its only sample |
| Kinematics.AllAccepted | src/rix/tf/frame_graph.cpp:41-104 | a fresh graph accepts such a list whole |
| Kinematics.QueryIsPose | src/rix/tf/frame_graph.cpp:107-188 | against the root and at any time it answers with the pose composed along the entries |
| Kinematics.PoseIsProduct | src/rix/robot/robot_model.cpp:121-222 | a link's pose is world to root times the product of what was sent for its chain |
| Kinematics.EndToEnd | src/rix/robot/robot_model.cpp:162-222 | a fresh graph accepts a robot's transforms and gives every link, at every time, the ordered product over its chain |
| Kinematics.LeavesAreEndEffectors | src/rix/robot/robot_model.cpp:110-118 | the leaves of the graph a robot builds are exactly its end effectors |
| ActualKinematics.SentIsActualIff | src/rix/robot/robot_model.cpp:207-211 | what is sent for a mimic joint is its origin and for any other its transform at its position; that is where the joint really is, unless it is a mimic joint away from its origin |
| ActualKinematics.AtOriginIff | src/rix/robot/joint.cpp:115-135 | a joint stands at its origin exactly when it cannot move or its motion to the position is none |
| ActualKinematics.ChainShownRight | src/rix/robot/robot_model.cpp:121-222 | a link is shown where it is when every mimic joint in its chain stands at its origin |
| ActualKinematics.ShownRightIff | src/rix/robot/robot_model.cpp:207-211 | all links are shown where they are exactly when every mimic joint stands at its origin |
| ActualKinematics.MimicMisplaced | src/rix/robot/robot_model.cpp:207-211 | a description whose mimic joint follows a slide by one and is sent as if it had not moved |
| Republishing.RefreshAccepted | src/rix/tf/frame_graph.cpp:82-103 | a graph accepts every further message of its frames and writes each entry to its own edge only |
| Republishing.StreamAccepted | src/rix/tf/frame_graph.cpp:41-104 | along a stream of messages of the same frames, not stamped backwards, each is accepted whole and becomes the newest sample of every edge |
| Republishing.LatestPose | src/rix/tf/transform_buffer.cpp:66-69 | queried at time 0, the graph answers with the poses of the last message of the stream |
| Republishing.LiveKinematics | src/rix/robot/robot_model.cpp:162-222 | after any number of publications of a robot the latest transform of a link is the product of what its chain sent last |
| Republishing.EdgeIsReplay | src/rix/tf/frame_graph.cpp:101-102 | along a stream, an edge's buffer is what inserting its transforms one after the other leaves |
| Republishing.PastPose | src/rix/tf/transform_buffer.cpp:71-90 | queried at the stamp of any message still in the window, the graph answers with that message's poses |
| Republishing.PastBlend | src/rix/tf/transform_buffer.cpp:91-112 | between two messages every edge is the blend of what they wrote to it, by the part of the time between them that has gone by |
| Republishing.PastProportion | src/rix/tf/transform_buffer.cpp:91-112 | so a coordinate that blends linearly has then gone that part of its way from the one message to the next |
| Republishing.BlendedExact | src/rix/tf/transform_buffer.cpp:106-111 | a blend of two publications blends world to root and every joint's transform by the part of the time between them that has gone by |
| Republishing.PastKinematics | src/rix/tf/transform_buffer.cpp:71-90 | at the stamp of an earlier publication a link's transform is the product of what its chain sent then |
| Republishing.BetweenPose | src/rix/tf/transform_buffer.cpp:91-112 | between two messages the graph answers with the poses of the blended transforms |
| Republishing.BetweenKinematics | src/rix/tf/transform_buffer.cpp:91-112 | between two publications a link's transform is the product over its chain of the blends of what was sent |
| LinkQueries.ForkMeets | src/rix/tf/frame_graph.cpp:199-231 | two links' nearest common frame is that of the link where their chains part |
| LinkQueries.LinkToLink | src/rix/tf/frame_graph.cpp:107-188 | wherever the edges answer with a robot's transforms, a query between two links is the product over the one chain below the part they share, times the inverse of that over the other |
| LinkQueries.EndToEndLinks | src/rix/tf/frame_graph.cpp:107-188 | so it is in a fresh graph, at any time |
| LinkQueries.LiveLinks | src/rix/tf/frame_graph.cpp:107-188 | after any number of publications, for the latest transforms |
| LinkQueries.PastLinks | src/rix/tf/frame_graph.cpp:107-188 | at the stamp of an earlier publication |
| LinkQueries.BetweenLinks | src/rix/tf/frame_graph.cpp:107-188 | and between two publications, with the blends of what was sent |
| ForwardKinematics.Viewer.BuildDictionaries | gui/gui.py:77-84 | for every message, the dictionaries hold each frame's last transform and the frames below it in message order |
| ForwardKinematics.Viewer.FkRecursive | gui/gui.py:52-69 | where no frame lies below itself the recursion ends, restores the matrix stack, and fills in depth first |
| ForwardKinematics.FillRight | gui/gui.py:52-69 | from a frame of a list that hangs together, what is filled in is exactly what is below the frame, with the poses of the list |
| ForwardKinematics.HangsNoLoops | gui/gui.py:52-69 | in such a list no frame lies below itself, so the recursion ends |
| ForwardKinematics.Viewer.TfCallback | gui/gui.py:77-88 | of a list that hangs together, exactly the frames are filled in, each with its pose; of any other, what the recursion fills in |
| ForwardKinematics.ViewerAgrees | gui/gui.py:77-88 | what the recursion fills in from the dictionaries of such a list is, frame by frame, what a frame graph answers against the root at any time |
| RobotStatePublishers.RunSpacedIff | src/robot_state_publisher/robot_state_publisher.cpp:47-51 | over every run, in whatever order messages come, published stamps are a period apart exactly when no message stamped less than a period comes while 0 is the stamp published last |
| RobotStatePublishers.GuardedIff | src/robot_state_publisher/robot_state_publisher.cpp:47-51 | of stamps that are not negative, that is so exactly when there are fewer than two, or the first is not 0, or the second is a period or more |
| RobotStatePublishers.RunSpaced | src/robot_state_publisher/robot_state_publisher.cpp:47-51 | and of stamps of which none is 0 |
| RobotStatePublishers.StepSpacedIff | src/robot_state_publisher/robot_state_publisher.cpp:47-51 | a callback breaks the spacing exactly when stamp 0 was published last and the new stamp is less than a period |
| RobotStatePublishers.ZeroStampUnthrottled | src/robot_state_publisher/robot_state_publisher.cpp:47 | stamps 0 and 1 are both published |
| RobotStatePublishers.DueIsPublished | src/robot_state_publisher/robot_state_publisher.cpp:47-51 | a message a period or more after everything published is published |
| RobotStatePublishers.NeverStale | src/robot_state_publisher/robot_state_publisher.cpp:47-51 | where stamps do not decrease, each is less than a period after some stamp published up to it |
| RobotStatePublishers.RunPicks | src/robot_state_publisher/robot_state_publisher.cpp:47-51 | the published stamps are those of the first message, and after each of these of the next one a period or more later, or after stamp 0 of the very next; every message between is less than a period later |
| RobotStatePublishers.PicksUnique | src/robot_state_publisher/robot_state_publisher.cpp:47-51 | the stamps alone determine which messages these are |
| RobotStatePublishers.NonePickedAfter | src/robot_state_publisher/robot_state_publisher.cpp:47-51 | every message after the last of them is less than a period later |
| RobotStatePublishers.RateBound | src/robot_state_publisher/robot_state_publisher.cpp:47-51 | no interval holds more publications than its length divided by the period, plus one |
| RobotStatePublishers.BufferBound | src/rix/tf/transform_buffer.cpp:54-59 | a buffer fed by the publisher never exceeds its duration divided by the period, plus one |
| RobotStatePublishers.RobotStatePublisher.JointStateCallback | src/robot_state_publisher/robot_state_publisher.cpp:38-59 | every message updates the robot; it is answered exactly when the last published stamp is 0 or a period or more ago, with a publication that lists the robot after all messages so far, throttled ones included, and becomes the last published stamp then alone |
| RobotStatePublishers.RobotStatePublisher.Announce | src/robot_state_publisher/robot_state_publisher.cpp:51-58 | what is published lists the robot as it is now, with one stamp |
| RobotStatePublishers.BroadcastPublished | src/robot_state_publisher/robot_state_publisher.cpp:38-59 | over every run, the publications carry the stamps the throttle publishes and list the robot in its one order |
| RobotStatePublishers.LastBroadcast | src/robot_state_publisher/robot_state_publisher.cpp:38-59 | the last publication shows the robot after the last message that is answered |
| RobotStatePublishers.NodeKinematics | src/robot_state_publisher/robot_state_publisher.cpp:38-59 | after any run of callbacks whose published stamps stay apart, a graph fed with what was published answers for a link with the product over its chain of what the joints sent after the last message that is answered; every later one came less than a period after it |
| RobotStatePublishers.NodePast | src/robot_state_publisher/robot_state_publisher.cpp:38-59 | and at the stamp of any publication still in the window with the product of what was sent then |
| RobotStatePublishers.NodeBetween | src/robot_state_publisher/robot_state_publisher.cpp:38-59 | and between two publications with the product of the blends of what was sent |
| RobotStatePublishers.NodeLinks | src/robot_state_publisher/robot_state_publisher.cpp:38-59 | and between two links with the product down to the one and back up from the other |
| RobotStatePublishers.RobotStatePublisher.Restamp | src/robot_state_publisher/robot_state_publisher.cpp:54-57 | the loop gives every transform the stamp and changes nothing else |
| Codec.WordRoundTrip | include/rix/msg/serialization.hpp:70-75 | the four bytes of a word give the word back |
| Codec.WordUnique | include/rix/msg/serialization.hpp:240-247 | any four bytes are the bytes of the word they give |
| Codec.WordBytes | include/rix/msg/serialization.hpp:70-75 | the lowest byte of a word comes first |
| Codec.TextBytes | include/rix/msg/serialization.hpp:87-94 | a string is its length and then its characters |
| Codec.TextCut | include/rix/msg/serialization.hpp:87-94 | a string whose length 32 bits cannot hold is cut, with its length, by a multiple of 2^32 |
| Codec.NumbersFirst | include/rix/msg/serialization.hpp:174-184 | a vector of numbers is its count and then the numbers, the first one first |
| Codec.NumbersCut | include/rix/msg/serialization.hpp:174-184 | its count is cut like a length, and the size of those numbers once more |
| Codec.AllFirst | include/rix/msg/serialization.hpp:217-224 | the messages of a vector are written the first one first |
| Codec.CountCut | include/rix/msg/serialization.hpp:217-224 | only their count is cut: all of them are written |
| Codec.FieldsFirst | include/rix/msg/geometry/TransformStamped.hpp:42-47 | the fields of a message are written the first one first |
| Codec.PartSizeExact | include/rix/msg/serialization.hpp:16-57 | if counts fit, the 32-bit size of a part is the number of bytes written, modulo 2^32 |
| Codec.SumFieldsExact | include/rix/msg/geometry/TransformStamped.hpp:29-36 | a message's size is the number of bytes written for its fields, if 32 bits hold that |
| Codec.RoundTrip | include/rix/msg/serialization.hpp:240-442 | for every schema, decoding where an encoding stands gives an equal value and the offset behind it |
| Codec.RoundTripAll | include/rix/msg/serialization.hpp:430-442 | the same for the elements of a vector of messages |
| Codec.Canonical | include/rix/msg/serialization.hpp:240-442 | for arbitrary input, a success stays inside it and consumed exactly what encoding the result produces |
| Codec.PrefixFails | include/rix/msg/serialization.hpp:240-271 | no strict prefix of an encoding is decoded |
| Codec.RejectedAt | include/rix/msg/serialization.hpp:240-271 | a number is rejected exactly where it starts and is not all there, a string or vector of numbers there or behind its length |
| Codec.AllRejectedAt | include/rix/msg/serialization.hpp:430-442 | elements are rejected exactly where the first of them is rejected, all before it having been read |
| Codec.FieldsRejectedAt | include/rix/msg/geometry/TransformStamped.hpp:49-55 | so are the fields of a message |
| Codec.EncodingUnique | include/rix/msg/serialization.hpp:69-224 | different values of a schema have different encodings |
| Codec.Overruns | include/rix/msg/serialization.hpp:379-391 | every schema with a vector of numbers wider than a byte has an input that is read past: blank fields, then one number announced and one byte left |
| Codec.OverrunsIff | include/rix/msg/serialization.hpp:240-442 | a schema is read inside every input exactly when it has no such vector |
| CodecBuffers.WriteBytes | include/rix/msg/serialization.hpp:73-74 | a block of bytes lands at the offset and the rest of the array stays |
| CodecBuffers.Serialize | include/rix/msg/serialization.hpp:70-224 | exactly the encoding is written at the offset, nothing outside it changes, and the offset ends behind it |
| CodecBuffers.SerializeAll | include/rix/msg/serialization.hpp:217-224 | so do the elements of a vector of messages |
| CodecBuffers.SerializeFields | include/rix/msg/geometry/TransformStamped.hpp:42-47 | so do the fields of a message |
| CodecBuffers.Deserialize | include/rix/msg/serialization.hpp:240-442 | the outcome is the decoding of the first size bytes, so it depends on no others |
| CodecBuffers.DeserializeAll | include/rix/msg/serialization.hpp:430-442 | the element loop decodes in order and stops at the first rejection |
| CodecBuffers.DeserializeFields | include/rix/msg/geometry/TransformStamped.hpp:49-55 | the fields are decoded in order up to the first rejection |
| Messages.ReadIsExact | include/rix/msg/serialization.hpp:285-289 | reading any such message stays inside the input, and a success consumed size() bytes that re-serialize the same |
| Messages.WriteIsExact | include/rix/msg/serialization.hpp:104-107 | writing takes size() bytes that are read back equal from anywhere and of which no strict prefix is accepted |
| Messages.TfReadIsExact | include/rix/msg/geometry/TF.hpp:26-46 | this holds of TF messages |
| Messages.JsReadIsExact | include/rix/msg/sensor/JS.hpp:28-51 | this holds of JS messages |
| Messages.TransformStampedLength | include/rix/msg/geometry/TransformStamped.hpp:29-36 | a stamped transform takes 48 bytes besides its two frame names |
| Wire.StampedBack | include/rix/msg/geometry/TransformStamped.hpp:42-55 | a stamped transform survives the way into a message and back |
| Wire.StampedBytes | include/rix/msg/geometry/TransformStamped.hpp:42-47 | on the wire a stamped transform is its sequence number, the whole seconds, the nanoseconds left over, the length and characters of its frame, those of its child frame, and its transform |
| Wire.Carried | include/rix/msg/geometry/TF.hpp:38-46 | a TF message written anywhere into a buffer and read from there is the one that was sent |
| Wire.EndToEndOverWire | include/rix/msg/geometry/TF.hpp:38-46 | a graph fed with what it reads from the bytes of a robot's transforms answers for every link with the product over its chain |
| Pipeline.Listen | src/rix/tf/transform_listener.cpp:42-66 | a listener's update and question are those of a fresh tree |
| Pipeline.PublishAndAsk | src/rix/tf/transform_listener.cpp:42-66 | the objects together give a link the product over its chain |
| Pipeline.Show | gui/gui.py:72-88 | the viewer object fills in for a frame what a graph answers |
| Pipeline.PublishAndShow | gui/gui.py:72-88 | a robot and a viewer together give a link the same product |
| Pipeline.Relay | src/rix/tf/transform_listener.cpp:42-66 | what the publisher sends for one message, if anything, goes to the graph |
| Pipeline.Operate | src/robot_state_publisher/robot_state_publisher.cpp:38-59 | the objects in operation: after all joint messages the graph's latest transform of a link is the product over its chain of what the joints sent after the last message that is answered, as the stamps alone decide |

## Left out

- RobotModels.RobotModel.GetTransforms: asks that the walk over a valid model ends (`RobotWalk.WalkEndsIff` says when); the program does not check it and loops otherwise.
- RobotModels.RobotModel.GetJointsInChain: asks that the climb from the link ends (`RobotStructure.ClimbStopsIff` says when); the program does not check it.
- RobotModels.RobotModel.ParseJrdf: starts from decoded joint and link records; JSON checks, materials, geometry and inertia are not modelled, nor are missing arrays.
- Joints.Joint.GetState: asks that the mimic chain ends (`Joints.ChainEndsIff` says when); otherwise the program recurses without end.
- ForwardKinematics.Viewer.TfCallback: asks that no frame lies below itself; otherwise the program fails at Python's recursion limit, which is not modelled.
- Codec.DecodeAll: the program makes room for the announced number of elements before it reads one, and can fail there; here the first element that is missing is rejected.
- CodecBuffers.Deserialize: models the read past the input that a vector of numbers allows as its own outcome, not by what it would read.
- Samples.ReplayIsWindow: is about one fixed duration; a change of the duration takes effect at the next insert.
- Joint efforts read through `effort()`, which the program takes from the velocities, and joint limits and wrapping.
- 64-bit overflow of times: stamps and durations are unbounded here, and fit their fields where they are sent.
- Float rounding, quaternion and matrix conversion, and the curve of rotation interpolation, which stays a parameter.
- Boolean fields, maps of messages, and the other generated message classes.
- Copying of graphs, buffers and models; each object here has one owner. `RobotStatePublisher` always has a robot.
- The static transforms of visuals, collisions and inertia.
- Nodes, sockets, the mediator, signals, logging, and the listener's point, pose and vector helpers.
